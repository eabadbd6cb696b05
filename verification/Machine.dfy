/** What all parts share: the width of a machine word, and optional values. */
module Machine {

  /** 2^32: size_t, addresses and counters have 32 bits. */
  const WORD: nat := 0x1_0000_0000

  type Word = w: nat | w < WORD

  /** Counting on 32 bits is counting modulo 2^32. */
  lemma NextWord(n: nat)
    ensures (n % WORD + 1) % WORD == (n + 1) % WORD
  {}

  datatype Option<T> = None | Some(value: T)

  function Min(a: nat, b: nat): nat { if a < b then a else b }
}
