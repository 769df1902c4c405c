/** Sequence searches and collections shared by the declaration modules. */
module Util {
  import opened Wrappers

  /** The index of the first element satisfying `p`, as an iterator's `position`/`find` gives it. */
  function FindFirst<T>(s: seq<T>, p: T -> bool): (r: Option<nat>)
    ensures r.Some? ==> r.value < |s| && p(s[r.value]) && forall j | 0 <= j < r.value :: !p(s[j])
    ensures r.None? <==> forall j | 0 <= j < |s| :: !p(s[j])
  {
    if |s| == 0 then None
    else if p(s[0]) then Some(0)
    else match FindFirst(s[1..], p)
      case None => None
      case Some(i) => Some(i + 1)
  }

  /** Applies `f` to every element in order, stopping at the first error, as
      collecting an iterator of results into a result does (and as a loop that
      pushes each value and returns on the first error does). */
  function CollectResults<T, U, E>(xs: seq<T>, f: T -> Result<U, E>): (r: Result<seq<U>, E>)
    ensures r.Ok? <==> forall i | 0 <= i < |xs| :: f(xs[i]).Ok?
    ensures r.Ok? ==> |r.value| == |xs| && forall i | 0 <= i < |xs| :: f(xs[i]) == Ok(r.value[i])
    ensures r.Err? ==> exists i | 0 <= i < |xs| ::
      f(xs[i]) == Err(r.error) && forall j | 0 <= j < i :: f(xs[j]).Ok?
  {
    if |xs| == 0 then Ok([])
    else
      var prefix := xs[..|xs| - 1];
      assert forall i | 0 <= i < |prefix| :: prefix[i] == xs[i];
      match CollectResults(prefix, f)
      case Err(e) => Err(e)
      case Ok(vs) =>
        var last := f(xs[|xs| - 1]);
        if last.Err? then Err(last.error)
        else
          var r := vs + [last.value];
          assert forall i | 0 <= i < |prefix| :: r[i] == vs[i];
          Ok(r)
  }

  /** The error `CollectResults` reports is that of the earliest failing element. */
  lemma CollectResultsFirstError<T, U, E>(xs: seq<T>, f: T -> Result<U, E>, i: nat)
    requires i < |xs| && f(xs[i]).Err?
    requires forall j | 0 <= j < i :: f(xs[j]).Ok?
    ensures CollectResults(xs, f) == Err(f(xs[i]).error)
  {
    var r := CollectResults(xs, f);
    assert r.Err?;
    var k :| 0 <= k < |xs| && f(xs[k]) == Err(r.error) && forall j | 0 <= j < k :: f(xs[j]).Ok?;
    assert k == i;
  }

  function DigitChar(d: nat): (c: char)
    requires d < 10
  {
    ('0' as int + d) as char
  }

  function DigitValue(c: char): nat
  {
    if '0' <= c <= '9' then (c as int - '0' as int) as nat else 0
  }

  /** Decimal rendering of a natural number, as Rust's `{}` formatting of a `usize` gives it. */
  function Decimal(n: nat): (s: string)
    ensures 1 <= |s|
    ensures forall i | 0 <= i < |s| :: '0' <= s[i] <= '9'
  {
    if n < 10 then [DigitChar(n)] else Decimal(n / 10) + [DigitChar(n % 10)]
  }

  /** Reads a string of decimal digits back as a number. */
  function DecimalValue(s: string): nat
  {
    if |s| == 0 then 0 else 10 * DecimalValue(s[..|s| - 1]) + DigitValue(s[|s| - 1])
  }

  /** Reading a rendering back gives the number rendered, so distinct numbers render differently. */
  lemma {:induction false} DecimalRoundTrip(n: nat)
    ensures DecimalValue(Decimal(n)) == n
  {
    if n >= 10 {
      DecimalRoundTrip(n / 10);
      var s := Decimal(n);
      assert s[..|s| - 1] == Decimal(n / 10);
      assert DigitValue(s[|s| - 1]) == n % 10;
    }
  }
}
