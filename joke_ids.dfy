/**
 * Joke identifiers. The catalog names its jokes `joke_1` .. `joke_N` (an f-string around the
 * 1-based row number) and turns an identifier back into a row index with
 * `int(id.replace("joke_", "")) - 1`.
 */
module JokeIds {
  import opened Wrappers

  /** The text in front of every joke number. */
  const Marker: string := "joke_"

  predicate IsDigit(c: char) {
    '0' <= c <= '9'
  }

  predicate AllDigits(s: string) {
    forall k :: 0 <= k < |s| ==> IsDigit(s[k])
  }

  function DigitChar(d: nat): (c: char)
    requires d < 10
    ensures IsDigit(c) && c as int - '0' as int == d
  {
    ('0' as int + d) as char
  }

  /** Decimal notation of n, as Python formats an int: no sign, no leading zero. */
  function Digits(n: nat): (s: string)
    ensures |s| > 0 && AllDigits(s)
    ensures s[0] == '0' <==> n == 0
  {
    if n < 10 then [DigitChar(n)] else Digits(n / 10) + [DigitChar(n % 10)]
  }

  /** The number a string of decimal digits denotes; leading zeros are allowed, as int() allows them. */
  function DigitsValue(s: string): nat
    requires AllDigits(s)
  {
    if s == [] then 0 else 10 * DigitsValue(s[..|s| - 1]) + (s[|s| - 1] as int - '0' as int)
  }

  /** int(s), for the inputs the model accepts: one or more ASCII digits; anything else fails. */
  function ParseInt(s: string): Option<nat> {
    if |s| > 0 && AllDigits(s) then Some(DigitsValue(s)) else None
  }

  /** s.replace("joke_", ""): every occurrence of the marker removed, scanning left to right. */
  function StripMarker(s: string): string {
    if |s| >= |Marker| && s[..|Marker|] == Marker then StripMarker(s[|Marker|..])
    else if s == [] then []
    else [s[0]] + StripMarker(s[1..])
  }

  /** The identifier of the joke in 1-based row n. */
  function JokeId(n: nat): string {
    Marker + Digits(n)
  }

  /** int(id.replace("joke_", "")) - 1: the 0-based row an identifier points at. */
  function ParseJokeIndex(id: string): Option<int> {
    match ParseInt(StripMarker(id))
    case None => None
    case Some(n) => Some(n - 1)
  }

  /** The row index of an identifier, or -1 when it does not parse. The sentinel merges a malformed
      identifier with `joke_0`, whose index is also -1; it is used only where the identifier is known
      to parse, and `JokeFor` keeps the two errors apart. */
  function JokeIndexOf(id: string): int {
    match ParseJokeIndex(id)
    case None => -1
    case Some(k) => k
  }

  /** The set of all identifiers of a catalog of n jokes. */
  function Catalog(n: nat): set<string> {
    set i | 1 <= i <= n :: JokeId(i)
  }

  lemma {:induction false} DigitsRoundTrip(n: nat)
    ensures DigitsValue(Digits(n)) == n
  {
    if n >= 10 {
      var d := Digits(n / 10);
      var s := d + [DigitChar(n % 10)];
      assert s[..|s| - 1] == d;
      DigitsRoundTrip(n / 10);
    }
  }

  /** A string of digits holds no marker, so replace() leaves it as it is. */
  lemma {:induction false} StripDigits(s: string)
    requires AllDigits(s)
    ensures StripMarker(s) == s
  {
    if s != [] {
      assert IsDigit(s[0]) && s[0] != Marker[0];
      StripDigits(s[1..]);
      assert s == [s[0]] + s[1..];
    }
  }

  /** Parsing the identifier of row n gives back index n - 1. */
  lemma JokeIdRoundTrip(n: nat)
    ensures ParseJokeIndex(JokeId(n)) == Some(n - 1)
    ensures JokeIndexOf(JokeId(n)) == n - 1
  {
    var d := Digits(n);
    var id := Marker + d;
    assert id[..|Marker|] == Marker;
    assert id[|Marker|..] == d;
    StripDigits(d);
    DigitsRoundTrip(n);
  }

  lemma JokeIdInjective(m: nat, n: nat)
    ensures JokeId(m) == JokeId(n) <==> m == n
  {
    JokeIdRoundTrip(m);
    JokeIdRoundTrip(n);
  }

  /** Every identifier of the catalog names a row in [0, n) and is exactly that row's identifier. */
  lemma CatalogIndex(id: string, n: nat)
    requires id in Catalog(n)
    ensures 0 <= JokeIndexOf(id) < n
    ensures ParseJokeIndex(id) == Some(JokeIndexOf(id))
    ensures id == JokeId(JokeIndexOf(id) + 1)
  {
    var i :| 1 <= i <= n && id == JokeId(i);
    JokeIdRoundTrip(i);
  }

  /** The catalog of n jokes holds exactly n distinct identifiers. */
  lemma {:induction false} CatalogSize(n: nat)
    ensures |Catalog(n)| == n
  {
    if n > 0 {
      assert Catalog(n) == Catalog(n - 1) + {JokeId(n)};
      if JokeId(n) in Catalog(n - 1) {
        var i :| 1 <= i <= n - 1 && JokeId(n) == JokeId(i);
        JokeIdInjective(n, i);
      }
      CatalogSize(n - 1);
    }
  }
}
