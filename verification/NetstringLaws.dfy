/** The texts the canonical encodings are made of, in terms of the numbers they spell. */
module NetstringLaws {
  import opened Strings
  import opened Decimal
  import opened DecimalLaws
  import opened Netstrings

  /** An atom is the length in decimal, without a leading zero, a colon, the bytes and the
      closing byte. */
  lemma AtomExactly(s: string, close: char, ds: string)
    requires IsWhole(ds) && Int(ds) == |s|
    ensures Atom(s, close) == ds + ":" + s + [close]
  {
    ItoaExactly(|s|, ds);
  }

  /** fmt.Sprint of an integer: its digits, without a leading zero, behind a "-" when it is
      negative. */
  lemma SprintExactly(n: int, ds: string)
    requires IsWhole(ds) && Int(ds) == if n < 0 then -n else n
    ensures Sprint(n) == if n < 0 then "-" + ds else ds
  {
    ItoaExactly(if n < 0 then -n else n, ds);
  }
}
