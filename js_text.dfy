/** The few JavaScript string and value semantics the application relies on:
    truthiness of optional strings, `indexOf`/`includes`/`startsWith`,
    `Array.prototype.join`, `String.prototype.split` with a non-empty
    separator, and the decimal rendering of an integer in a template literal. */
module JsText {

  datatype Option<+T> = None | Some(value: T)

  datatype Result<+T> = Ok(value: T) | Err(message: string)

  /** A JavaScript value of type `string | undefined` is truthy when it is
      present and non-empty. */
  predicate Truthy(o: Option<string>) {
    o.Some? && o.value != ""
  }

  /** `o || fallback` for an optional string. */
  function OrElse(o: Option<string>, fallback: string): (r: string)
    ensures r == "" <==> !Truthy(o) && fallback == ""
    ensures r == fallback || (Truthy(o) && r == o.value)
    ensures Truthy(o) ==> r == o.value
  {
    if Truthy(o) then o.value else fallback
  }

  /** `sub` occurs in `s` starting at position `i`. */
  predicate OccursAt(s: string, sub: string, i: nat) {
    i + |sub| <= |s| && s[i..i + |sub|] == sub
  }

  /** `s.indexOf(sub, from)`: the least position at or after `from` where
      `sub` occurs, if any. */
  function IndexOf(s: string, sub: string, from: nat): (r: Option<nat>)
    ensures r.Some? ==> from <= r.value && OccursAt(s, sub, r.value)
    ensures forall j :: from <= j && (r.None? || j < r.value) ==> !OccursAt(s, sub, j)
    decreases |s| - from
  {
    if from + |sub| > |s| then None
    else if OccursAt(s, sub, from) then Some(from)
    else IndexOf(s, sub, from + 1)
  }

  /** `s.includes(sub)`. */
  predicate Contains(s: string, sub: string) {
    IndexOf(s, sub, 0).Some?
  }

  /** `s.startsWith(p)`. */
  predicate StartsWith(s: string, p: string) {
    |p| <= |s| && s[..|p|] == p
  }

  predicate EndsWith(s: string, t: string) {
    |t| <= |s| && s[|s| - |t|..] == t
  }

  lemma EndsWithTrans(a: string, b: string, c: string)
    requires EndsWith(a, b) && EndsWith(b, c)
    ensures EndsWith(a, c)
  {
    assert a[|a| - |c|..] == a[|a| - |b|..][|b| - |c|..];
  }

  /** `parts.join(sep)`: an empty array joins to the empty string. */
  function Join(parts: seq<string>, sep: string): string
    decreases |parts|
  {
    if |parts| == 0 then ""
    else if |parts| == 1 then parts[0]
    else parts[0] + sep + Join(parts[1..], sep)
  }

  /** A join opens with the first part and, with two or more parts, the
      separator right after it. */
  lemma JoinStarts(parts: seq<string>, sep: string)
    requires |parts| >= 1
    ensures StartsWith(Join(parts, sep), parts[0])
    ensures |parts| >= 2 ==> StartsWith(Join(parts, sep), parts[0] + sep)
  {
    if |parts| >= 2 {
      var r := parts[0] + sep + Join(parts[1..], sep);
      assert Join(parts, sep) == r;
      assert r[..|parts[0]|] == parts[0];
      assert r[..|parts[0] + sep|] == parts[0] + sep;
    }
  }

  /** A join closes with the last part. */
  lemma {:induction false} JoinFinishes(parts: seq<string>, sep: string)
    requires |parts| >= 1
    ensures EndsWith(Join(parts, sep), parts[|parts| - 1])
    decreases |parts|
  {
    if |parts| >= 2 {
      var rest := parts[1..];
      var tail := Join(rest, sep);
      JoinFinishes(rest, sep);
      var last := parts[|parts| - 1];
      assert rest[|rest| - 1] == last;
      var r := parts[0] + sep + tail;
      assert Join(parts, sep) == r;
      assert r[|r| - |last|..] == tail[|tail| - |last|..];
    }
  }

  /** A join ends with whatever its last part ends with. */
  lemma JoinEndsLike(parts: seq<string>, sep: string, suffix: string)
    requires |parts| >= 1 && EndsWith(parts[|parts| - 1], suffix)
    ensures EndsWith(Join(parts, sep), suffix)
  {
    JoinFinishes(parts, sep);
    EndsWithTrans(Join(parts, sep), parts[|parts| - 1], suffix);
  }

  /** `s.split(sep)` for a non-empty separator: cut at every leftmost,
      non-overlapping occurrence; the empty string splits into `[""]`. */
  function Split(s: string, sep: string): (r: seq<string>)
    requires sep != ""
    ensures |r| >= 1
    decreases |s|
  {
    match IndexOf(s, sep, 0)
    case None => [s]
    case Some(i) => [s[..i]] + Split(s[i + |sep|..], sep)
  }

  /** The decimal digits of a natural number, most significant first. */
  function NatToDecimal(n: nat): (r: string)
    ensures |r| >= 1
    ensures forall i :: 0 <= i < |r| ==> '0' <= r[i] <= '9'
    ensures r[0] == '0' <==> n == 0
    decreases n
  {
    if n < 10 then [('0' as int + n) as char]
    else NatToDecimal(n / 10) + [('0' as int + n % 10) as char]
  }

  /** `${n}` for an integer-valued number. */
  function IntToDecimal(n: int): (r: string)
    ensures |r| >= 1
    ensures r[0] == '-' <==> n < 0
    ensures n >= 0 ==> AllDigits(r)
    ensures n < 0 ==> |r| >= 2 && AllDigits(r[1..]) && r[1] != '0'
  {
    if n < 0 then "-" + NatToDecimal(-n) else NatToDecimal(n)
  }

  predicate AllDigits(s: string) {
    forall i :: 0 <= i < |s| ==> '0' <= s[i] <= '9'
  }

  /** The value of a string of decimal digits (the empty string reads as 0). */
  function DecimalValue(s: string): nat
    requires AllDigits(s)
    decreases |s|
  {
    if s == [] then 0
    else DecimalValue(s[..|s| - 1]) * 10 + (s[|s| - 1] as int - '0' as int)
  }

  // ---------------------------------------------------------------------
  // Lemmas

  /** An occurrence that fits inside the first `n` characters is an
      occurrence in the prefix of length `n`, and conversely. */
  lemma OccursInPrefix(s: string, n: nat, sub: string, j: nat)
    requires n <= |s| && j + |sub| <= n
    ensures OccursAt(s, sub, j) <==> OccursAt(s[..n], sub, j)
  {
    assert s[..n][j..j + |sub|] == s[j..j + |sub|];
  }

  /** `IndexOf` from 0 finds exactly the least occurrence. */
  lemma IndexOfLeast(s: string, sub: string, k: nat)
    requires OccursAt(s, sub, k)
    requires forall j :: 0 <= j < k ==> !OccursAt(s, sub, j)
    ensures IndexOf(s, sub, 0) == Some(k)
  {
  }

  /** No piece produced by `Split` contains the separator. */
  lemma {:induction false} SplitPiecesSeparatorFree(s: string, sep: string)
    requires sep != ""
    ensures forall k :: 0 <= k < |Split(s, sep)| ==> !Contains(Split(s, sep)[k], sep)
    decreases |s|
  {
    match IndexOf(s, sep, 0)
    case None =>
    case Some(i) =>
      var rest := s[i + |sep|..];
      SplitPiecesSeparatorFree(rest, sep);
      var head := s[..i];
      forall j: nat | j + |sep| <= |head|
        ensures !OccursAt(head, sep, j)
      {
        OccursInPrefix(s, i, sep, j);
      }
      SplitStep(s, sep, i);
  }

  /** The first piece of a split is the text before the first occurrence
      of the separator, or all of the text when there is none. */
  lemma SplitHead(s: string, sep: string)
    requires sep != ""
    ensures var h := Split(s, sep)[0];
      && |h| <= |s| && h == s[..|h|]
      && !Contains(h, sep)
      && (|h| == |s| || OccursAt(s, sep, |h|))
      // no occurrence starts inside the head, even one reaching past it
      && forall j :: 0 <= j < |h| ==> !OccursAt(s, sep, j)
  {
    SplitPiecesSeparatorFree(s, sep);
    match IndexOf(s, sep, 0)
    case None =>
    case Some(i) => SplitStep(s, sep, i);
  }

  /** With the separator present, the second piece is the first piece of
      the text after its first occurrence. */
  lemma SplitSecond(s: string, sep: string)
    requires sep != "" && Contains(s, sep)
    ensures |Split(s, sep)| >= 2
    ensures Split(s, sep)[1] == Split(s[IndexOf(s, sep, 0).value + |sep|..], sep)[0]
  {
    var i := IndexOf(s, sep, 0).value;
    SplitStep(s, sep, i);
  }

  /** One step of `Split` at the first occurrence. */
  lemma SplitStep(s: string, sep: string, i: nat)
    requires sep != "" && IndexOf(s, sep, 0) == Some(i)
    ensures Split(s, sep) == [s[..i]] + Split(s[i + |sep|..], sep)
  {
  }

  /** A slice of a suffix is a slice of the whole text. */
  lemma SliceOfSuffix(s: string, k: nat, a: nat, b: nat)
    requires k <= |s| && a <= b <= |s| - k
    ensures s[k..][a..b] == s[k + a..k + b]
  {
  }

  /** Joining the pieces of a split gives back the original string: `split`
      loses nothing. */
  lemma {:induction false} JoinSplit(s: string, sep: string)
    requires sep != ""
    ensures Join(Split(s, sep), sep) == s
    decreases |s|
  {
    match IndexOf(s, sep, 0)
    case None =>
    case Some(i) =>
      var head, rest := s[..i], s[i + |sep|..];
      JoinSplit(rest, sep);
      var tail := Split(rest, sep);
      SplitStep(s, sep, i);
      JoinCons(head, tail, sep);
      assert s[i..i + |sep|] == sep;
      ThreeSlices(s, i, |sep|);
  }

  lemma JoinCons(head: string, tail: seq<string>, sep: string)
    requires |tail| >= 1
    ensures Join([head] + tail, sep) == head + sep + Join(tail, sep)
  {
    assert ([head] + tail)[1..] == tail;
  }

  lemma ThreeSlices(s: string, i: nat, n: nat)
    requires i + n <= |s|
    ensures s == s[..i] + s[i..i + n] + s[i + n..]
  {
  }

  /** Reading back the decimal rendering of `n` gives `n`. */
  lemma {:induction false} DecimalRoundTrip(n: nat)
    ensures DecimalValue(NatToDecimal(n)) == n
    decreases n
  {
    if n >= 10 {
      DecimalRoundTrip(n / 10);
      var d := NatToDecimal(n / 10);
      var r := d + [('0' as int + n % 10) as char];
      assert r[..|r| - 1] == d;
    }
  }

  lemma NatToDecimalInjective(a: nat, b: nat)
    requires NatToDecimal(a) == NatToDecimal(b)
    ensures a == b
  {
    DecimalRoundTrip(a);
    DecimalRoundTrip(b);
  }

  /** Distinct integers render as distinct strings. */
  lemma IntToDecimalInjective(a: int, b: int)
    requires IntToDecimal(a) == IntToDecimal(b)
    ensures a == b
  {
    if a < 0 {
      var s := IntToDecimal(a);
      assert s[1..] == NatToDecimal(-a) && s[1..] == NatToDecimal(-b);
      NatToDecimalInjective(-a, -b);
    } else {
      NatToDecimalInjective(a, b);
    }
  }
}
