/** The handful of Python string and byte operations the pipeline relies on. */
module PyText {
  import opened Wrappers

  newtype byte = x: int | 0 <= x < 256
  type Bytes = seq<byte>

  /** `s.endswith(suffix)`. */
  predicate EndsWith(s: string, suffix: string) {
    |suffix| <= |s| && s[|s| - |suffix|..] == suffix
  }

  /** `s[i:j]` for non-negative bounds: each bound is clamped to `len(s)` and the
      slice is empty when the clamped `j` does not exceed the clamped `i`. */
  function Slice(s: string, i: nat, j: nat): (r: string)
    ensures i <= j <= |s| ==> r == s[i..j]
    ensures j <= i ==> r == []
    ensures i <= |s| <= j ==> r == s[i..]
    ensures |s| <= i ==> r == []
    ensures |r| <= |s|
  {
    var lo := if i < |s| then i else |s|;
    var hi := if j < |s| then j else |s|;
    if lo < hi then s[lo..hi] else []
  }

  /** What an f-string prints for an optional string: `None` prints as "None". */
  function Str(o: Option<string>): string {
    match o
    case Some(s) => s
    case None => "None"
  }

  /** Python truthiness of an optional string: neither `None` nor empty. */
  predicate Truthy(o: Option<string>) {
    o.Some? && o.value != ""
  }

  function DigitChar(d: nat): (c: char)
    requires d < 10
    ensures '0' <= c <= '9'
    ensures c as int - '0' as int == d
  {
    ('0' as int + d) as char
  }

  /** The number a string of decimal digits spells, most significant first. */
  function DecimalValue(s: string): int
    decreases |s|
  {
    if s == [] then 0 else DecimalValue(s[..|s| - 1]) * 10 + (s[|s| - 1] as int - '0' as int)
  }

  /** Decimal digits of `n`, as `str(n)` prints them: they spell `n`, and only
      zero itself starts with the digit zero. */
  function NatToString(n: nat): (r: string)
    ensures |r| > 0
    ensures forall k :: 0 <= k < |r| ==> '0' <= r[k] <= '9'
    ensures DecimalValue(r) == n
    ensures r[0] == '0' <==> n == 0
    ensures n == 0 ==> r == "0"
    decreases n
  {
    if n < 10 then [DigitChar(n)]
    else
      var init := NatToString(n / 10);
      var r := init + [DigitChar(n % 10)];
      assert r[..|r| - 1] == init;
      r
  }

  /** `str(i)` for an integer: a minus sign exactly for negative values, then
      the decimal digits of the magnitude. */
  function IntToString(i: int): (r: string)
    ensures |r| > 0
    ensures r[0] == '-' <==> i < 0
    ensures forall k :: (if i < 0 then 1 else 0) <= k < |r| ==> '0' <= r[k] <= '9'
    ensures i >= 0 ==> DecimalValue(r) == i
    ensures i >= 0 && r[0] == '0' ==> |r| == 1
    ensures i < 0 ==> |r| >= 2 && DecimalValue(r[1..]) == -i && r[1] != '0'
  {
    if i < 0 then
      var r := "-" + NatToString(-i);
      assert r[1..] == NatToString(-i);
      r
    else NatToString(i)
  }

  /** `"".join(parts)`: fails (`None`) exactly when some part is `None`. */
  function Join(parts: seq<Option<string>>): (r: Option<string>)
    ensures r.Some? <==> forall k :: 0 <= k < |parts| ==> parts[k].Some?
    decreases |parts|
  {
    if parts == [] then Some("")
    else match parts[0]
      case None => None
      case Some(p) =>
        match Join(parts[1..])
        case None => None
        case Some(t) => Some(p + t)
  }

  /** Joining a concatenation joins the two halves. */
  lemma {:induction false} JoinAppend(a: seq<Option<string>>, b: seq<Option<string>>)
    requires Join(a).Some? && Join(b).Some?
    ensures Join(a + b) == Some(Join(a).value + Join(b).value)
    decreases |a|
  {
    if a == [] {
      assert a + b == b;
      assert Join(a).value + Join(b).value == Join(b).value;
    } else {
      assert (a + b)[1..] == a[1..] + b;
      assert Join(a[1..]).Some? by {
        assert forall k :: 0 <= k < |a[1..]| ==> a[1..][k] == a[k + 1];
      }
      JoinAppend(a[1..], b);
      var p, t, u := a[0].value, Join(a[1..]).value, Join(b).value;
      assert Join(a).value == p + t;
      assert p + (t + u) == (p + t) + u;
    }
  }
}
