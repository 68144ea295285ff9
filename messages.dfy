/**
 * The confirmation returned by delete_user, f"Usuário ID[{user_id}] deletado com sucesso.",
 * with Python's decimal rendering of an int written out, and a reader that recovers the
 * id from such a message.
 */
module Messages {
  import opened Wrappers

  const Lead: string := "Usuário ID["
  const Tail: string := "] deletado com sucesso."

  predicate IsDigit(c: char) {
    '0' <= c <= '9'
  }

  predicate AllDigits(s: string) {
    forall i :: 0 <= i < |s| ==> IsDigit(s[i])
  }

  function DigitChar(d: nat): (c: char)
    requires d < 10
    ensures IsDigit(c)
  {
    ('0' as int + d) as char
  }

  function DigitValue(c: char): (d: nat)
    requires IsDigit(c)
    ensures d < 10
  {
    c as int - '0' as int
  }

  /** str(n) for a non-negative int: the most significant digit first, no leading zeros. */
  function NatToDecimal(n: nat): (s: string)
    ensures |s| >= 1 && AllDigits(s)
    ensures n >= 10 ==> s[0] != '0'
    decreases n
  {
    if n < 10 then [DigitChar(n)] else NatToDecimal(n / 10) + [DigitChar(n % 10)]
  }

  /** str(i) for any int: a minus sign before the digits of a negative value. */
  function IntToDecimal(i: int): string {
    if i < 0 then "-" + NatToDecimal(-i) else NatToDecimal(i)
  }

  /** The value of a string of decimal digits. */
  function ParseNat(s: string): nat
    requires AllDigits(s)
    decreases |s|
  {
    if s == [] then 0 else ParseNat(s[..|s| - 1]) * 10 + DigitValue(s[|s| - 1])
  }

  /** int(s) restricted to an optional minus sign followed by at least one digit. */
  function ParseInt(s: string): Option<int> {
    if |s| > 0 && s[0] == '-' then
      if |s| > 1 && AllDigits(s[1..]) then Some(-(ParseNat(s[1..]) as int)) else None
    else if |s| > 0 && AllDigits(s) then Some(ParseNat(s))
    else None
  }

  /** {"message": f"Usuário ID[{user_id}] deletado com sucesso."} */
  function DeletedMessage(id: int): string {
    Lead + IntToDecimal(id) + Tail
  }

  /** The id a deletion confirmation names, if the text is one. */
  function ParseDeletedMessage(m: string): Option<int> {
    if |m| >= |Lead| + |Tail| && m[..|Lead|] == Lead && m[|m| - |Tail|..] == Tail then
      ParseInt(m[|Lead|..|m| - |Tail|])
    else None
  }

  /** Reading back the decimal rendering of n gives n. */
  lemma {:induction false} NatDecimalRoundTrip(n: nat)
    ensures ParseNat(NatToDecimal(n)) == n
    decreases n
  {
    var s := NatToDecimal(n);
    if n < 10 {
      assert s[..|s| - 1] == [];
    } else {
      NatDecimalRoundTrip(n / 10);
      assert s[..|s| - 1] == NatToDecimal(n / 10);
    }
  }

  /** Reading back str(i) gives i, for negative values too. */
  lemma IntDecimalRoundTrip(i: int)
    ensures ParseInt(IntToDecimal(i)) == Some(i)
  {
    if i < 0 {
      var d := NatToDecimal(-i);
      var s := IntToDecimal(i);
      assert s[0] == '-' && s[1..] == d;
      assert AllDigits(s[1..]);
      NatDecimalRoundTrip(-i);
      assert ParseInt(s) == Some(-(ParseNat(d) as int));
    } else {
      var d := NatToDecimal(i);
      assert IsDigit(d[0]);
      NatDecimalRoundTrip(i);
      assert ParseInt(d) == Some(ParseNat(d) as int);
    }
  }

  /** The deletion confirmation names exactly the id that was asked for. */
  lemma DeletedMessageNamesId(id: int)
    ensures ParseDeletedMessage(DeletedMessage(id)) == Some(id)
  {
    var d := IntToDecimal(id);
    var m := DeletedMessage(id);
    assert m[..|Lead|] == Lead;
    assert m[|m| - |Tail|..] == Tail;
    assert m[|Lead|..|m| - |Tail|] == d;
    IntDecimalRoundTrip(id);
  }

  /** Different ids give different confirmations. */
  lemma DeletedMessageInjective(a: int, b: int)
    requires DeletedMessage(a) == DeletedMessage(b)
    ensures a == b
  {
    DeletedMessageNamesId(a);
    DeletedMessageNamesId(b);
  }
}
