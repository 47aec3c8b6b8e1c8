/** The three Python `str` built-ins the chat script relies on, with the
    semantics CPython gives them: `str.strip()` with no argument,
    `str.replace(old, new)` with no count, and `sep.join(parts)`. */
module PyText {

  /** `c.isspace()` in Python 3: the characters whose Unicode bidirectional
      class is WS, B or S, or whose general category is Zs. This is the set
      `str.strip()` removes when called without an argument. */
  predicate IsSpace(c: char) {
    || ('\t' <= c <= '\r')                  // \t \n \x0b \x0c \r
    || ('\U{1C}' <= c <= '\U{1F}')          // file, group, record, unit separators
    || c == ' ' || c == '\U{85}' || c == '\U{A0}' || c == '\U{1680}'
    || ('\U{2000}' <= c <= '\U{200A}')
    || c == '\U{2028}' || c == '\U{2029}' || c == '\U{202F}' || c == '\U{205F}'
    || c == '\U{3000}'
  }

  /** No whitespace at either end: what `strip()` guarantees of its result. */
  predicate IsStripped(s: string) {
    s == [] || (!IsSpace(s[0]) && !IsSpace(s[|s| - 1]))
  }

  /** `s.lstrip()`: the suffix of `s` left once the leading whitespace is gone. */
  function StripStart(s: string): (r: string)
    ensures |r| <= |s| && r == s[|s| - |r|..]
    ensures forall k :: 0 <= k < |s| - |r| ==> IsSpace(s[k])
    ensures r == [] || !IsSpace(r[0])
  {
    if |s| > 0 && IsSpace(s[0]) then StripStart(s[1..]) else s
  }

  /** `s.rstrip()`: the prefix of `s` left once the trailing whitespace is gone. */
  function StripEnd(s: string): (r: string)
    ensures |r| <= |s| && r == s[..|r|]
    ensures forall k :: |r| <= k < |s| ==> IsSpace(s[k])
    ensures r == [] || !IsSpace(r[|r| - 1])
  {
    if |s| > 0 && IsSpace(s[|s| - 1]) then StripEnd(s[..|s| - 1]) else s
  }

  /** `s.strip()`: CPython advances a left index over whitespace, then moves a
      right index back over whitespace, and returns the slice between them. */
  function Strip(s: string): (r: string)
    ensures IsStripped(r)
  {
    var left := StripStart(s);
    var r := StripEnd(left);
    assert IsStripped(r) by {
      if r != [] {
        assert r[0] == left[0];
      }
    }
    r
  }

  /** The stripped string is the slice of the input between its leading
      whitespace, which ends at index `i`, and its trailing whitespace, which
      starts at index `j`. */
  lemma StripIsTrimmedSlice(s: string)
    ensures var i := |s| - |StripStart(s)|;
            var j := i + |Strip(s)|;
            && 0 <= i <= j <= |s| && Strip(s) == s[i..j]
            && (forall k :: 0 <= k < i ==> IsSpace(s[k]))
            && (forall k :: j <= k < |s| ==> IsSpace(s[k]))
  {
    var left := StripStart(s);
    var i := |s| - |left|;
    assert left == s[i..];
    var r := StripEnd(left);
    assert Strip(s) == r;
    TrailingOfSuffix(s, i, r);
  }

  /** What `rstrip` drops from a suffix `s[i..]` is whitespace of `s`. */
  lemma TrailingOfSuffix(s: string, i: nat, r: string)
    requires i <= |s| && r == StripEnd(s[i..])
    ensures i + |r| <= |s| && r == s[i..i + |r|]
    ensures forall k :: i + |r| <= k < |s| ==> IsSpace(s[k])
  {
    var left := s[i..];
    forall k | i + |r| <= k < |s| ensures IsSpace(s[k]) {
      assert s[k] == left[k - i];
    }
  }

  /** Stripping changes nothing exactly when there is no whitespace at either end. */
  lemma {:induction false} StripFixedPoint(s: string)
    ensures Strip(s) == s <==> IsStripped(s)
  {
    if IsStripped(s) && s != [] {
      assert StripStart(s) == s;
      assert StripEnd(s) == s;
    }
  }

  /** `strip()` is idempotent. */
  lemma StripIdempotent(s: string)
    ensures Strip(Strip(s)) == Strip(s)
  {
    StripFixedPoint(Strip(s));
  }

  /** `pat` occurs in `s` starting at index `k`. */
  predicate OccursAt(s: string, pat: string, k: nat) {
    k + |pat| <= |s| && s[k..k + |pat|] == pat
  }

  /** `pat in s` for a non-empty `pat`. */
  predicate Contains(s: string, pat: string) {
    exists k: nat | k <= |s| :: OccursAt(s, pat, k)
  }

  /** A pattern whose first character is absent from `s` does not occur in it. */
  lemma AbsentFirstChar(s: string, pat: string)
    requires |pat| > 0 && pat[0] !in s
    ensures !Contains(s, pat)
  {
    forall k: nat ensures !OccursAt(s, pat, k) {
      if k + |pat| <= |s| {
        assert s[k..k + |pat|][0] == s[k];
      }
    }
  }

  /** `s.replace(pat, rep)` with a non-empty `pat`: scanning left to right,
      each occurrence of `pat` that does not overlap an occurrence already
      replaced is rewritten to `rep`; every other character is copied. */
  function Replace(s: string, pat: string, rep: string): string
    requires |pat| > 0
  {
    if |s| < |pat| then s
    else if s[..|pat|] == pat then rep + Replace(s[|pat|..], pat, rep)
    else [s[0]] + Replace(s[1..], pat, rep)
  }

  /** With no occurrence of the pattern, `replace` returns its input. */
  lemma {:induction false} ReplaceAbsent(s: string, pat: string, rep: string)
    requires |pat| > 0
    requires !Contains(s, pat)
    ensures Replace(s, pat, rep) == s
  {
    if |s| >= |pat| {
      assert !OccursAt(s, pat, 0);
      forall k: nat ensures !OccursAt(s[1..], pat, k) {
        if OccursAt(s[1..], pat, k) {
          assert s[k + 1..k + 1 + |pat|] == s[1..][k..k + |pat|];
          assert OccursAt(s, pat, k + 1);
        }
      }
      ReplaceAbsent(s[1..], pat, rep);
    }
  }

  /** When the replacement is shorter than the pattern, `replace` never
      lengthens its input, and it shortens it as soon as there is one
      occurrence. */
  lemma {:induction false} ReplaceShrinks(s: string, pat: string, rep: string)
    requires |rep| < |pat|
    ensures |Replace(s, pat, rep)| <= |s|
    ensures Contains(s, pat) ==> |Replace(s, pat, rep)| < |s|
  {
    if |s| < |pat| {
    } else if s[..|pat|] == pat {
      ReplaceShrinks(s[|pat|..], pat, rep);
    } else {
      ReplaceShrinks(s[1..], pat, rep);
      if Contains(s, pat) {
        var k: nat :| k <= |s| && OccursAt(s, pat, k);
        assert k != 0 by {
          assert !OccursAt(s, pat, 0);
        }
        assert s[1..][k - 1..k - 1 + |pat|] == s[k..k + |pat|];
        assert OccursAt(s[1..], pat, k - 1);
      }
    }
  }

  /** Deleting every occurrence of a pattern leaves the text unchanged
      exactly when the pattern does not occur in it. */
  lemma DeleteUnchangedIff(s: string, pat: string)
    requires |pat| > 0
    ensures Replace(s, pat, "") == s <==> !Contains(s, pat)
  {
    if Contains(s, pat) {
      ReplaceShrinks(s, pat, "");
    } else {
      ReplaceAbsent(s, pat, "");
    }
  }

  /** No occurrence of `pat` in `a + b` starts inside `a` and ends inside `b`. */
  predicate NoStraddle(a: string, b: string, pat: string) {
    forall k: nat :: k < |a| < k + |pat| ==> !OccursAt(a + b, pat, k)
  }

  /** Dropping a prefix of `a` keeps the concatenation free of straddling
      occurrences. */
  lemma NoStraddleDrop(a: string, b: string, pat: string, m: nat)
    requires m <= |a|
    requires NoStraddle(a, b, pat)
    ensures NoStraddle(a[m..], b, pat)
  {
    var a' := a[m..];
    assert a' + b == (a + b)[m..];
    forall k: nat | k < |a'| < k + |pat| ensures !OccursAt(a' + b, pat, k) {
      if OccursAt(a' + b, pat, k) {
        assert (a' + b)[k..k + |pat|] == (a + b)[k + m..k + m + |pat|];
        assert OccursAt(a + b, pat, k + m);
      }
    }
  }

  /** If the first character of `b` occurs nowhere in `pat` after its first
      position, no occurrence of `pat` runs from `a` into `b`. */
  lemma NoStraddleByFirstChar(a: string, b: string, pat: string)
    requires |b| > 0 && |pat| > 0 && b[0] !in pat[1..]
    ensures NoStraddle(a, b, pat)
  {
    forall k: nat | k < |a| < k + |pat| ensures !OccursAt(a + b, pat, k) {
      if k + |pat| <= |a + b| {
        assert (a + b)[k..k + |pat|][|a| - k] == b[0];
        assert pat[|a| - k] == pat[1..][|a| - k - 1];
      }
    }
  }

  /** If the last character of `pat` occurs nowhere among the first
      `|pat| - 1` characters of `b`, no occurrence of `pat` runs from `a`
      into `b`. */
  lemma NoStraddleByLastChar(a: string, b: string, pat: string)
    requires 0 < |pat| <= |b| + 1 && pat[|pat| - 1] !in b[..|pat| - 1]
    ensures NoStraddle(a, b, pat)
  {
    forall k: nat | k < |a| < k + |pat| ensures !OccursAt(a + b, pat, k) {
      if k + |pat| <= |a + b| {
        var e := k + |pat| - 1 - |a|;
        assert (a + b)[k..k + |pat|][|pat| - 1] == b[e];
        assert b[e] == b[..|pat| - 1][e];
      }
    }
  }

  /** `replace` distributes over a concatenation that no occurrence of the
      pattern straddles: the left-to-right scan then reaches the start of `b`
      exactly, in the same state as a scan of `b` alone. */
  lemma {:induction false} ReplaceConcat(a: string, b: string, pat: string, rep: string)
    requires |pat| > 0
    requires NoStraddle(a, b, pat)
    ensures Replace(a + b, pat, rep) == Replace(a, pat, rep) + Replace(b, pat, rep)
    decreases |a|, 1
  {
    var s := a + b;
    if a == [] {
      assert s == b;
    } else if |s| < |pat| {
      assert Replace(a, pat, rep) == a && Replace(b, pat, rep) == b;
    } else if s[..|pat|] == pat {
      ReplaceConcatAtMatch(a, b, pat, rep);
    } else {
      ReplaceConcatAtMismatch(a, b, pat, rep);
    }
  }

  /** The case of `ReplaceConcat` where the scan finds the pattern at the start. */
  lemma {:induction false} ReplaceConcatAtMatch(a: string, b: string, pat: string, rep: string)
    requires |pat| > 0 && a != [] && |a + b| >= |pat| && (a + b)[..|pat|] == pat
    requires NoStraddle(a, b, pat)
    ensures Replace(a + b, pat, rep) == Replace(a, pat, rep) + Replace(b, pat, rep)
    decreases |a|, 0
  {
    var s := a + b;
    assert OccursAt(s, pat, 0);
    assert a[..|pat|] == pat;
    var a' := a[|pat|..];
    assert s[|pat|..] == a' + b;
    NoStraddleDrop(a, b, pat, |pat|);
    ReplaceConcat(a', b, pat, rep);
  }

  /** The case of `ReplaceConcat` where the scan copies the first character. */
  lemma {:induction false} ReplaceConcatAtMismatch(a: string, b: string, pat: string, rep: string)
    requires |pat| > 0 && a != [] && |a + b| >= |pat| && (a + b)[..|pat|] != pat
    requires NoStraddle(a, b, pat)
    ensures Replace(a + b, pat, rep) == Replace(a, pat, rep) + Replace(b, pat, rep)
    decreases |a|, 0
  {
    var s := a + b;
    var a' := a[1..];
    assert s[1..] == a' + b;
    NoStraddleDrop(a, b, pat, 1);
    ReplaceConcat(a', b, pat, rep);
    ReplaceCopiesFirst(s, pat, rep);
    if |a| >= |pat| {
      assert a[..|pat|] == s[..|pat|];
    }
    ReplaceCopiesFirst(a, pat, rep);
    assert s[0] == a[0];
    var ra := Replace(a', pat, rep);
    var rb := Replace(b, pat, rep);
    assert [a[0]] + (ra + rb) == ([a[0]] + ra) + rb;
  }

  /** Where the pattern does not start a string, `replace` copies the
      string's first character and goes on with the rest. */
  lemma ReplaceCopiesFirst(s: string, pat: string, rep: string)
    requires |pat| > 0 && s != [] && (|s| < |pat| || s[..|pat|] != pat)
    ensures Replace(s, pat, rep) == [s[0]] + Replace(s[1..], pat, rep)
  {
    if |s| < |pat| {
      assert s == [s[0]] + s[1..];
    }
  }

  /** Deleting an occurrence that sits between two pieces which together
      spell the pattern leaves exactly one new occurrence: replace-all does
      not rescan what it has produced. */
  lemma {:induction false} DeletionJoinsPieces(a: string, c: string, pat: string)
    requires a + c == pat && |a| < |pat| && |c| < |pat|
    requires NoStraddle(a, pat + c, pat)
    ensures Replace(a + pat + c, pat, "") == pat
  {
    var b := pat + c;
    assert a + pat + c == a + b;
    ReplaceConcat(a, b, pat, "");
    assert b[..|pat|] == pat && b[|pat|..] == c;
  }

  /** `sep.join(parts)`: the parts in order with `sep` between neighbours. */
  function Join(sep: string, parts: seq<string>): string {
    if |parts| == 0 then ""
    else if |parts| == 1 then parts[0]
    else parts[0] + sep + Join(sep, parts[1..])
  }

  /** Where part `i` starts in `Join(sep, parts)`: the lengths of the parts
      before it, each followed by one separator. */
  function Offset(sep: string, parts: seq<string>, i: nat): nat
    requires i <= |parts|
  {
    if i == 0 then 0 else Offset(sep, parts, i - 1) + |parts[i - 1]| + |sep|
  }

  /** Dropping the first part moves every later offset back by that part and
      one separator. */
  lemma {:induction false} OffsetTail(sep: string, parts: seq<string>, i: nat)
    requires 1 <= i <= |parts|
    ensures Offset(sep, parts, i) == |parts[0]| + |sep| + Offset(sep, parts[1..], i - 1)
  {
    if i > 1 {
      OffsetTail(sep, parts, i - 1);
    }
  }

  /** A slice of `x + y` that lies inside `y`. */
  lemma SliceRight(x: string, y: string, i: nat, j: nat)
    requires i <= j <= |y|
    ensures (x + y)[|x| + i..|x| + j] == y[i..j]
  {
  }

  /** The joined string is as long as the parts and the separators between
      them: the last part ends where the string ends. */
  lemma {:induction false} JoinLength(sep: string, parts: seq<string>)
    requires |parts| > 0
    ensures |Join(sep, parts)| == Offset(sep, parts, |parts| - 1) + |parts[|parts| - 1]|
  {
    if |parts| > 1 {
      JoinLength(sep, parts[1..]);
      OffsetTail(sep, parts, |parts| - 1);
    }
  }

  /** Part `i` sits in the joined string at its offset. */
  lemma {:induction false} JoinPartAt(sep: string, parts: seq<string>, i: nat)
    requires i < |parts|
    ensures Offset(sep, parts, i) + |parts[i]| <= |Join(sep, parts)|
    ensures Join(sep, parts)[Offset(sep, parts, i)..Offset(sep, parts, i) + |parts[i]|] == parts[i]
  {
    if |parts| == 1 {
      assert Join(sep, parts) == parts[0];
    } else {
      var tail := parts[1..];
      var head := parts[0] + sep;
      var jt := Join(sep, tail);
      assert Join(sep, parts) == head + jt;
      if i == 0 {
        assert (head + jt)[..|parts[0]|] == parts[0];
      } else {
        JoinPartAt(sep, tail, i - 1);
        OffsetTail(sep, parts, i);
        assert tail[i - 1] == parts[i];
        var o := Offset(sep, tail, i - 1);
        SliceRight(head, jt, o, o + |parts[i]|);
      }
    }
  }

  /** Between part `i` and part `i + 1` the joined string holds exactly one
      separator. */
  lemma {:induction false} JoinSeparatorAt(sep: string, parts: seq<string>, i: nat)
    requires i + 1 < |parts|
    ensures Offset(sep, parts, i + 1) <= |Join(sep, parts)|
    ensures Join(sep, parts)[Offset(sep, parts, i) + |parts[i]|..Offset(sep, parts, i + 1)] == sep
  {
    var tail := parts[1..];
    var head := parts[0] + sep;
    var jt := Join(sep, tail);
    assert Join(sep, parts) == head + jt;
    if i == 0 {
      assert Offset(sep, parts, 1) == |head|;
      assert (head + jt)[|parts[0]|..|head|] == sep;
    } else {
      JoinSeparatorAt(sep, tail, i - 1);
      OffsetTail(sep, parts, i);
      OffsetTail(sep, parts, i + 1);
      assert tail[i - 1] == parts[i];
      var lo := Offset(sep, tail, i - 1) + |parts[i]|;
      var hi := Offset(sep, tail, i);
      SliceRight(head, jt, lo, hi);
    }
  }

  /** Joining one more part appends a separator and that part. */
  lemma {:induction false} JoinSnoc(sep: string, parts: seq<string>, p: string)
    requires |parts| > 0
    ensures Join(sep, parts + [p]) == Join(sep, parts) + sep + p
  {
    if |parts| == 1 {
      assert (parts + [p])[1..] == [p];
    } else {
      assert (parts + [p])[1..] == parts[1..] + [p];
      JoinSnoc(sep, parts[1..], p);
    }
  }
}
