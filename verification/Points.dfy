/** Near-miss spelling of extension points (v2/plugin/points.go): a greedy check for one
    edit, held against the Levenshtein distance. */
module Points {
  import opened Strings
  import opened Utf8
  import Utf8Laws

  // ----- the reference distance

  function Min(x: nat, y: nat): nat {
    if x <= y then x else y
  }

  /** The least number of insertions, deletions and substitutions of single bytes. */
  function Lev(a: string, b: string): nat
    decreases |a| + |b|
  {
    if a == "" then |b|
    else if b == "" then |a|
    else if a[0] == b[0] then Lev(a[1..], b[1..])
    else 1 + Min(Lev(a[1..], b[1..]), Min(Lev(a[1..], b), Lev(a, b[1..])))
  }

  lemma {:induction false} LevAtLeast(a: string, b: string)
    ensures Lev(a, b) >= |a| - |b| && Lev(a, b) >= |b| - |a|
    decreases |a| + |b|
  {
    if a != "" && b != "" {
      LevAtLeast(a[1..], b[1..]);
      LevAtLeast(a[1..], b);
      LevAtLeast(a, b[1..]);
    }
  }

  lemma {:induction false} LevZero(a: string, b: string)
    ensures Lev(a, b) == 0 <==> a == b
    decreases |a| + |b|
  {
    if a != "" && b != "" {
      LevZero(a[1..], b[1..]);
      assert a == [a[0]] + a[1..] && b == [b[0]] + b[1..];
    }
  }

  lemma {:induction false} LevSymmetric(a: string, b: string)
    ensures Lev(a, b) == Lev(b, a)
    decreases |a| + |b|
  {
    if a != "" && b != "" {
      LevSymmetric(a[1..], b[1..]);
      LevSymmetric(a[1..], b);
      LevSymmetric(a, b[1..]);
    }
  }

  // ----- one deletion

  predicate OneDeletion(long: string, short: string) {
    exists k :: 0 <= k < |long| && DeletedAt(long, k) == short
  }

  function DeletedAt(s: string, k: nat): string
    requires k < |s|
  {
    s[..k] + s[k + 1..]
  }

  /** The first mismatch decides: any working deletion is at or before it, and then the
      deletion at the mismatch works too. */
  lemma FirstMismatchDecides(long: string, short: string, i: nat)
    requires |long| == |short| + 1 && i < |short|
    requires long[..i] == short[..i] && long[i] != short[i]
    ensures OneDeletion(long, short) <==> long[i + 1..] == short[i..]
  {
    if long[i + 1..] == short[i..] {
      assert DeletedAt(long, i) == short[..i] + short[i..] == short;
    }
    if k :| 0 <= k < |long| && DeletedAt(long, k) == short {
      assert k <= i;
      forall j | 0 <= j < |long[i + 1..]|
        ensures long[i + 1..][j] == short[i..][j]
      {
        assert DeletedAt(long, k)[i + j] == long[i + j + 1];
      }
    }
  }

  /** isOneDeletionFrom. */
  method IsOneDeletionFrom(long: string, short: string) returns (r: bool)
    requires |long| == |short| + 1
    ensures r <==> OneDeletion(long, short)
  {
    for i := 0 to |short|
      invariant long[..i] == short[..i]
    {
      if long[i] != short[i] {
        FirstMismatchDecides(long, short, i);
        return long[i + 1..] == short[i..];
      }
      assert long[..i + 1] == long[..i] + [long[i]] && short[..i + 1] == short[..i] + [short[i]];
    }
    assert short[..|short|] == short;
    assert DeletedAt(long, |short|) == short;
    return true;
  }

  lemma {:induction false} LevOneDeletion(long: string, short: string)
    requires |long| == |short| + 1
    ensures Lev(long, short) == 1 <==> OneDeletion(long, short)
  {
    if short == "" {
      assert DeletedAt(long, 0) == short;
    } else if long[0] == short[0] {
      LevOneDeletion(long[1..], short[1..]);
      DeletionTail(long, short);
    } else {
      LevZero(long[1..], short);
      LevAtLeast(long, short[1..]);
      LevAtLeast(long[1..], short[1..]);
      assert long[..0] == short[..0];
      FirstMismatchDecides(long, short, 0);
    }
  }

  lemma DeletionTail(long: string, short: string)
    requires |long| == |short| + 1 && short != "" && long[0] == short[0]
    ensures OneDeletion(long, short) <==> OneDeletion(long[1..], short[1..])
  {
    if k :| 0 <= k < |long| && DeletedAt(long, k) == short {
      var at := if k == 0 then 0 else k - 1;
      forall j | 0 <= j < |short| - 1
        ensures DeletedAt(long[1..], at)[j] == short[1..][j]
      {
        assert DeletedAt(long, k)[j + 1] == short[j + 1];
      }
      assert DeletedAt(long[1..], at) == short[1..];
    }
    if k :| 0 <= k < |long[1..]| && DeletedAt(long[1..], k) == short[1..] {
      assert DeletedAt(long, k + 1) == [long[0]] + DeletedAt(long[1..], k);
      assert DeletedAt(long, k + 1) == short;
    }
  }

  // ----- substitutions

  /** Positions where two strings of one length differ. */
  function Mismatches(a: string, b: string): nat
    requires |a| == |b|
  {
    if a == "" then 0 else (if a[0] != b[0] then 1 else 0) + Mismatches(a[1..], b[1..])
  }

  lemma {:induction false} MismatchesZero(a: string, b: string)
    requires |a| == |b|
    ensures Mismatches(a, b) == 0 <==> a == b
  {
    if a != "" {
      MismatchesZero(a[1..], b[1..]);
      assert a == [a[0]] + a[1..] && b == [b[0]] + b[1..];
    }
  }

  lemma {:induction false} LevOneSubstitution(a: string, b: string)
    requires |a| == |b|
    ensures Lev(a, b) == 1 <==> Mismatches(a, b) == 1
  {
    if a != "" {
      if a[0] == b[0] {
        LevOneSubstitution(a[1..], b[1..]);
      } else {
        LevZero(a[1..], b[1..]);
        MismatchesZero(a[1..], b[1..]);
        LevAtLeast(a[1..], b);
        LevAtLeast(a, b[1..]);
      }
    }
  }

  /** What `range a` advances by: the rune at the front, or one malformed byte. */
  function RuneStep(s: string): (n: nat)
    requires s != ""
    ensures 1 <= n <= |s|
  {
    if RuneWidth(s) == 0 then 1 else RuneWidth(s)
  }

  /** Mismatches among the positions `range a` visits, which are a's rune starts. */
  function StartMismatches(a: string, b: string): nat
    requires |a| == |b|
    decreases |a|
  {
    if a == "" then 0
    else (if a[0] != b[0] then 1 else 0) + StartMismatches(a[RuneStep(a)..], b[RuneStep(a)..])
  }

  lemma StartMismatchesFrom(a: string, b: string, i: nat)
    requires |a| == |b| && i < |a|
    ensures i + RuneStep(a[i..]) <= |a|
    ensures var next := i + RuneStep(a[i..]);
            StartMismatches(a[i..], b[i..]) == (if a[i] != b[i] then 1 else 0) + StartMismatches(a[next..], b[next..])
  {
    var step := RuneStep(a[i..]);
    assert a[i..][step..] == a[i + step..] && b[i..][step..] == b[i + step..];
  }

  /** Every byte of `a` is a rune start: true of all ASCII strings. */
  predicate SingleByteRunes(a: string)
    decreases |a|
  {
    a == "" || (RuneStep(a) == 1 && SingleByteRunes(a[1..]))
  }

  lemma {:induction false} AsciiSingleByte(a: string)
    requires IsAscii(a)
    ensures SingleByteRunes(a)
  {
    if a != "" {
      AsciiSingleByte(a[1..]);
    }
  }

  /** The step is the width of the code point that is encoded there, and one byte where none is. */
  lemma StepExactly(s: string)
    requires s != ""
    ensures forall cp :: Utf8Laws.Scalar(cp) && Utf8Laws.Encoding(cp) <= s ==> RuneStep(s) == |Utf8Laws.Encoding(cp)|
    ensures (forall cp :: Utf8Laws.Scalar(cp) ==> !(Utf8Laws.Encoding(cp) <= s)) ==> RuneStep(s) == 1
  {
    Utf8Laws.RuneExactly(s);
    var n := RuneWidth(s);
    if n > 0 {
      assert Utf8Laws.Encoding(Utf8Laws.Decoding(s, n)) <= s;
    }
  }

  lemma StepOverFirst(cps: seq<int>)
    requires cps != [] && forall cp <- cps :: Utf8Laws.Scalar(cp)
    ensures var s := Utf8Laws.EncodingOf(cps);
            && s != "" && RuneStep(s) == |Utf8Laws.Encoding(cps[0])|
            && s[RuneStep(s)..] == Utf8Laws.EncodingOf(cps[1..])
    ensures |Utf8Laws.Encoding(cps[0])| == 1 <==> cps[0] < 0x80
  {
    var s, e := Utf8Laws.EncodingOf(cps), Utf8Laws.Encoding(cps[0]);
    assert s == e + Utf8Laws.EncodingOf(cps[1..]);
    Utf8Laws.WidthOfEncoding(cps[0], s);
  }

  /** A valid text has single-byte runes exactly when all its code points are ASCII. */
  lemma {:induction false} SingleByteExactly(cps: seq<int>)
    requires forall cp <- cps :: Utf8Laws.Scalar(cp)
    ensures SingleByteRunes(Utf8Laws.EncodingOf(cps)) <==> forall i :: 0 <= i < |cps| ==> cps[i] < 0x80
  {
    if cps != [] {
      StepOverFirst(cps);
      SingleByteExactly(cps[1..]);
      assert cps == [cps[0]] + cps[1..];
    }
  }

  lemma {:induction false} SingleByteMismatches(a: string, b: string)
    requires |a| == |b| && SingleByteRunes(a)
    ensures StartMismatches(a, b) == Mismatches(a, b)
  {
    if a != "" {
      SingleByteMismatches(a[1..], b[1..]);
    }
  }

  // ----- withinOneEdit

  predicate OneEdit(a: string, b: string) {
    if |a| == |b| then StartMismatches(a, b) == 1
    else if |a| == |b| + 1 then OneDeletion(a, b)
    else |b| == |a| + 1 && OneDeletion(b, a)
  }

  method WithinOneEdit(a: string, b: string) returns (r: bool)
    ensures r <==> OneEdit(a, b)
  {
    var d := |a| - |b|;
    if d == 0 {
      var diff, i := 0, 0;
      while i < |a|
        invariant i <= |a| && diff <= 1
        invariant StartMismatches(a, b) == diff + StartMismatches(a[i..], b[i..])
        decreases |a| - i
      {
        var step := RuneStep(a[i..]);
        StartMismatchesFrom(a, b, i);
        if a[i] != b[i] {
          diff := diff + 1;
          if diff > 1 {
            return false;
          }
        }
        i := i + step;
      }
      return diff == 1;
    } else if d == 1 {
      r := IsOneDeletionFrom(a, b);
    } else if d == -1 {
      r := IsOneDeletionFrom(b, a);
    } else {
      return false;
    }
  }

  /** When every byte of `a` is a rune start, the check is: distance exactly one. */
  lemma OneEditIsDistanceOne(a: string, b: string)
    requires SingleByteRunes(a)
    ensures OneEdit(a, b) <==> Lev(a, b) == 1
  {
    LevAtLeast(a, b);
    if |a| == |b| {
      SingleByteMismatches(a, b);
      LevOneSubstitution(a, b);
    } else if |a| == |b| + 1 {
      LevOneDeletion(a, b);
    } else if |b| == |a| + 1 {
      LevSymmetric(a, b);
      LevOneDeletion(b, a);
    }
  }

  lemma {:induction false} SameStarts(a: string)
    ensures StartMismatches(a, a) == 0
    decreases |a|
  {
    if a != "" {
      SameStarts(a[RuneStep(a)..]);
    }
  }

  /** A spelling one substitution away that the check misses, inside a multi-byte rune. */
  lemma {:induction false} MissedSubstitution(a: string) returns (b: string)
    requires !SingleByteRunes(a)
    ensures |b| == |a| && Mismatches(a, b) == 1 && StartMismatches(a, b) == 0
    decreases |a|
  {
    var step := RuneStep(a);
    if step == 1 {
      var tail := MissedSubstitution(a[1..]);
      b := [a[0]] + tail;
      assert b[1..] == tail;
    } else {
      b := a[1 := if a[1] == 'a' then 'b' else 'a'];
      assert b[step..] == a[step..];
      SameStarts(a[step..]);
      assert a[1..][1..] == b[1..][1..];
      MismatchesZero(a[1..][1..], b[1..][1..]);
    }
  }

  /** The check answers "distance one" for every b exactly when `a` has no multi-byte rune. */
  lemma OneEditExact(a: string)
    ensures SingleByteRunes(a) <==> forall b :: OneEdit(a, b) <==> Lev(a, b) == 1
  {
    if SingleByteRunes(a) {
      forall b
        ensures OneEdit(a, b) <==> Lev(a, b) == 1
      {
        OneEditIsDistanceOne(a, b);
      }
    } else {
      var b := MissedSubstitution(a);
      LevOneSubstitution(a, b);
      assert !OneEdit(a, b) && Lev(a, b) == 1;
    }
  }

  // ----- SuggestPoint

  const KNOWN_POINTS: seq<string> := [
    "mcp.tool",
    "files.s3",
    "acp.provider",
    "ai.decision",
    "project.tasks",
    "project.knowledge",
    "terminal.presentation",
    "host.settings.section",
    "host.session.backend"
  ]

  lemma KnownPointsAscii()
    ensures forall j :: 0 <= j < |KNOWN_POINTS| ==> IsAscii(KNOWN_POINTS[j])
  {
    FirstPointsAscii();
    LastPointsAscii();
  }

  lemma FirstPointsAscii()
    ensures forall j :: 0 <= j < 5 ==> IsAscii(KNOWN_POINTS[j])
  {
    assert IsAscii("mcp.tool") && IsAscii("files.s3") && IsAscii("acp.provider");
    assert IsAscii("ai.decision") && IsAscii("project.tasks");
  }

  lemma LastPointsAscii()
    ensures forall j :: 5 <= j < |KNOWN_POINTS| ==> IsAscii(KNOWN_POINTS[j])
  {
    assert IsAscii("project.knowledge") && IsAscii("terminal.presentation");
    assert IsAscii("host.settings.section") && IsAscii("host.session.backend");
  }

  predicate IsFirst(points: seq<string>, k: int, good: string -> bool) {
    0 <= k < |points| && good(points[k]) && forall j :: 0 <= j < k ==> !good(points[j])
  }

  predicate NoneGood(points: seq<string>, good: string -> bool) {
    forall j :: 0 <= j < |points| ==> !good(points[j])
  }

  /** What is suggested for the trimmed lower-case spelling `s`: an exact name, else the first
      namespaced point `s` is the tail of, else the first point one edit away. */
  ghost predicate Suggested(points: seq<string>, s: string, r: Option<string>) {
    if s == "" then r == None
    else if s in points then r == Some(s)
    else
      var tail := (p: string) => HasSuffix(p, "." + s);
      var near := (p: string) => Lev(p, s) == 1;
      if !NoneGood(points, tail) then exists k :: IsFirst(points, k, tail) && r == Some(points[k])
      else if !NoneGood(points, near) then exists k :: IsFirst(points, k, near) && r == Some(points[k])
      else r == None
  }

  /** SuggestPoint, on the trimmed lower-case spelling. */
  method SuggestPoint(points: seq<string>, s: string) returns (r: Option<string>)
    requires forall j :: 0 <= j < |points| ==> IsAscii(points[j])
    ensures Suggested(points, s, r)
    ensures r.Some? ==> r.value in points
  {
    if s == "" {
      return None;
    }
    for j := 0 to |points|
      invariant s !in points[..j]
    {
      if points[j] == s {
        return Some(s);
      }
    }
    ghost var tail := (p: string) => HasSuffix(p, "." + s);
    ghost var near := (p: string) => Lev(p, s) == 1;
    for k := 0 to |points|
      invariant forall j :: 0 <= j < k ==> !tail(points[j])
    {
      if HasSuffix(points[k], "." + s) {
        assert IsFirst(points, k, tail);
        return Some(points[k]);
      }
    }
    for k := 0 to |points|
      invariant forall j :: 0 <= j < k ==> !near(points[j])
    {
      AsciiSingleByte(points[k]);
      OneEditIsDistanceOne(points[k], s);
      var edit := WithinOneEdit(points[k], s);
      if edit {
        assert IsFirst(points, k, near);
        return Some(points[k]);
      }
    }
    return None;
  }

  /** The same over the closed registry; a suggestion is one of its names. */
  method SuggestKnownPoint(s: string) returns (r: Option<string>)
    ensures Suggested(KNOWN_POINTS, s, r)
    ensures r.Some? ==> r.value in [
        "mcp.tool", "files.s3", "acp.provider", "ai.decision", "project.tasks", "project.knowledge", "terminal.presentation",
        "host.settings.section", "host.session.backend"]
    ensures (s in [
        "mcp.tool", "files.s3", "acp.provider", "ai.decision", "project.tasks", "project.knowledge", "terminal.presentation",
        "host.settings.section", "host.session.backend"]) ==> r == Some(s)
  {
    KnownPointsAscii();
    r := SuggestPoint(KNOWN_POINTS, s);
  }
}
