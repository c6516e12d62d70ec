/** Values shared by the components: optional values, insertion-ordered dictionaries, and
    the decimal text of an integer used inside composite keys. */
module Prelude {

  datatype Option<+T> = None | Some(value: T) {
    function GetOr(default: T): T {
      match this
      case Some(v) => v
      case None => default
    }
  }

  ghost predicate NoDuplicates<T>(s: seq<T>) {
    forall i, j :: 0 <= i < j < |s| ==> s[i] != s[j]
  }

  /** A dictionary that is only ever extended: its entries by key, and its values in the
      order in which they were inserted. */
  datatype Table<V> = Table(vals: map<string, V>, order: seq<V>) {
    function Add(k: string, v: V): Table<V> {
      Table(vals[k := v], order + [v])
    }
  }

  lemma SplitLast<T>(s: seq<T>)
    requires s != []
    ensures s[..|s| - 1] + [s[|s| - 1]] == s
  {
  }

  const DIGITS: string := "0123456789"

  function Digits(n: nat): string {
    if n < 10 then [DIGITS[n]] else Digits(n / 10) + [DIGITS[n % 10]]
  }

  /** The decimal text of an integer. */
  function Decimal(n: int): string {
    if n < 0 then "-" + Digits(-n) else Digits(n)
  }

  function DigitValue(c: char): nat {
    if '0' <= c <= '9' then c as int - '0' as int else 0
  }

  function NatValue(s: string): nat {
    if s == "" then 0 else 10 * NatValue(s[..|s| - 1]) + DigitValue(s[|s| - 1])
  }

  lemma {:induction false} DigitsRoundTrip(n: nat)
    ensures NatValue(Digits(n)) == n
    ensures |Digits(n)| > 0
    ensures forall c :: c in Digits(n) ==> '0' <= c <= '9'
  {
    if n < 10 {
      assert Digits(n)[..0] == "";
    } else {
      DigitsRoundTrip(n / 10);
      var p := Digits(n / 10);
      assert Digits(n)[..|p|] == p;
    }
  }

  function IntValue(s: string): int {
    if s != "" && s[0] == '-' then 0 - NatValue(s[1..]) else NatValue(s)
  }

  lemma DecimalRoundTrip(n: int)
    ensures IntValue(Decimal(n)) == n
    ensures ':' !in Decimal(n)
  {
    var m := if n < 0 then -n else n;
    DigitsRoundTrip(m);
    assert Digits(m)[0] in Digits(m);
    assert n < 0 ==> Decimal(n)[1..] == Digits(m);
  }

  /** The composite key `<id>:<attempt>` of a response dictionary. */
  function AttemptKey(id: string, attempt: int): string {
    id + ":" + Decimal(attempt)
  }

  /** The composite key is injective although ids may themselves contain colons. */
  lemma AttemptKeyInjective(id: string, attempt: int, id': string, attempt': int)
    ensures AttemptKey(id, attempt) == AttemptKey(id', attempt') <==> id == id' && attempt == attempt'
  {
    DecimalRoundTrip(attempt);
    DecimalRoundTrip(attempt');
    if AttemptKey(id, attempt) == AttemptKey(id', attempt') {
      if |id| < |id'| {
        SeparatorPosition(id, Decimal(attempt), id', Decimal(attempt'));
      } else if |id'| < |id| {
        SeparatorPosition(id', Decimal(attempt'), id, Decimal(attempt));
      } else {
        var k := AttemptKey(id, attempt);
        assert k[..|id|] == id && k[..|id'|] == id';
        assert k[|id| + 1..] == Decimal(attempt) && k[|id'| + 1..] == Decimal(attempt');
      }
    }
  }

  lemma SeparatorPosition(a: string, d: string, b: string, e: string)
    requires |a| < |b|
    requires a + ":" + d == b + ":" + e
    ensures ':' in d
  {
    var k := a + ":" + d;
    assert (b + ":" + e)[|b|] == ':';
    assert k[|b|] == d[|b| - |a| - 1];
  }
}
