/** The JavaScript string primitives the markup parser relies on, written out
    character by character: `trim`, `startsWith`, `includes`, `indexOf`,
    `split`/`join` on one separator character, `replace(/\s+/g, "_")` and
    `toLowerCase`. */
module JsText {

  /** A character in JavaScript's `WhiteSpace` or `LineTerminator` class: what
      `String.prototype.trim` strips and what the regex class `\s` matches. */
  predicate IsWhitespace(c: char) {
    || c == ' ' || c == '\t' || c == '\n' || c == '\r'
    || c == '\U{000B}' || c == '\U{000C}' || c == '\U{00A0}' || c == '\U{1680}'
    || ('\U{2000}' <= c <= '\U{200A}')
    || c == '\U{2028}' || c == '\U{2029}' || c == '\U{202F}' || c == '\U{205F}'
    || c == '\U{3000}' || c == '\U{FEFF}'
  }

  /** The characters the regex `.` does not match (no `s` flag). */
  predicate IsLineTerminator(c: char) {
    c == '\n' || c == '\r' || c == '\U{2028}' || c == '\U{2029}'
  }

  ghost predicate AllWhitespace(s: string) {
    forall k :: 0 <= k < |s| ==> IsWhitespace(s[k])
  }

  /** Drops leading whitespace. */
  function TrimStart(s: string): (r: string)
    ensures |r| <= |s| && r == s[|s| - |r|..]
    ensures AllWhitespace(s[..|s| - |r|])
    ensures r == [] || !IsWhitespace(r[0])
  {
    if s != [] && IsWhitespace(s[0]) then
      var r := TrimStart(s[1..]);
      TrimStartStep(s, r);
      r
    else s
  }

  lemma TrimStartStep(s: string, r: string)
    requires s != [] && IsWhitespace(s[0])
    requires |r| <= |s| - 1 && r == s[1..][|s| - 1 - |r|..] && AllWhitespace(s[1..][..|s| - 1 - |r|])
    ensures r == s[|s| - |r|..] && AllWhitespace(s[..|s| - |r|])
  {
    var n := |s| - |r|;
    assert s[1..][n - 1..] == s[n..];
    forall k | 0 <= k < n ensures IsWhitespace(s[k]) {
      if k > 0 { assert s[k] == s[1..][..n - 1][k - 1]; }
    }
  }

  /** Drops trailing whitespace. */
  function TrimEnd(s: string): (r: string)
    ensures |r| <= |s| && r == s[..|r|]
    ensures AllWhitespace(s[|r|..])
    ensures r == [] || !IsWhitespace(r[|r| - 1])
  {
    if s != [] && IsWhitespace(s[|s| - 1]) then TrimEnd(s[..|s| - 1]) else s
  }

  /** `s.trim()`. */
  function Trim(s: string): (r: string)
    ensures |r| <= |s|
    ensures r == [] || (!IsWhitespace(r[0]) && !IsWhitespace(r[|r| - 1]))
  {
    TrimEnd(TrimStart(s))
  }

  /** The trimmed text is the infix of `s` left after removing whitespace at
      both ends. */
  lemma TrimInfix(s: string)
    ensures var r := Trim(s);
            exists i :: 0 <= i <= |s| - |r| && r == s[i..i + |r|]
                        && AllWhitespace(s[..i]) && AllWhitespace(s[i + |r|..])
  {
    TrimPieces(s, TrimStart(s), Trim(s));
  }

  /** Whitespace `s[..|s| - |a|]` dropped from the start of `s` leaves `a`, and
      whitespace dropped from the end of `a` leaves `b`: `b` is an infix of `s`
      with only whitespace around it. */
  lemma TrimPieces(s: string, a: string, b: string)
    requires |a| <= |s| && a == s[|s| - |a|..] && AllWhitespace(s[..|s| - |a|])
    requires |b| <= |a| && b == a[..|b|] && AllWhitespace(a[|b|..])
    ensures exists i :: 0 <= i <= |s| - |b| && b == s[i..i + |b|]
                        && AllWhitespace(s[..i]) && AllWhitespace(s[i + |b|..])
  {
    InfixOfSuffix(s, a, b);
    var i := |s| - |a|;
    assert 0 <= i <= |s| - |b| && b == s[i..i + |b|] && AllWhitespace(s[..i]) && AllWhitespace(s[i + |b|..]);
  }

  /** A prefix `b` of a suffix `a` of `s` is an infix of `s`. */
  lemma InfixOfSuffix(s: string, a: string, b: string)
    requires |a| <= |s| && a == s[|s| - |a|..] && |b| <= |a| && b == a[..|b|]
    ensures b == s[|s| - |a|..|s| - |a| + |b|] && a[|b|..] == s[|s| - |a| + |b|..]
  {
    SliceOfSuffix(s, |s| - |a|, |b|);
  }

  lemma SliceOfSuffix(s: string, i: nat, n: nat)
    requires i + n <= |s|
    ensures s[i..][..n] == s[i..i + n] && s[i..][n..] == s[i + n..]
  {
  }

  lemma {:induction false} TrimEmptyIffAllWhitespace(s: string)
    ensures Trim(s) == [] <==> AllWhitespace(s)
  {
    TrimInfix(s);
    if Trim(s) == [] {
      var i :| 0 <= i <= |s| && AllWhitespace(s[..i]) && AllWhitespace(s[i..]);
      forall k | 0 <= k < |s| ensures IsWhitespace(s[k]) {
        if k < i { assert s[..i][k] == s[k]; } else { assert s[i..][k - i] == s[k]; }
      }
    }
  }

  /** `s.startsWith(p)`. */
  predicate StartsWith(s: string, p: string) {
    |p| <= |s| && s[..|p|] == p
  }

  lemma StartsWithAt(s: string, p: string, k: nat)
    requires StartsWith(s, p) && k < |p|
    ensures s[k] == p[k]
  {
    assert s[..|p|][k] == s[k];
  }

  /** Prefixes with different first characters exclude each other. */
  lemma StartsWithExclusive(s: string, p: string, q: string)
    requires StartsWith(s, p) && p != [] && q != [] && p[0] != q[0]
    ensures !StartsWith(s, q)
  {
    StartsWithAt(s, p, 0);
  }

  /** `s.includes(p)`: `p` occurs somewhere in `s`. */
  predicate Contains(s: string, p: string)
    decreases |s|
  {
    StartsWith(s, p) || (s != [] && Contains(s[1..], p))
  }

  /** `s.indexOf(x)` / `s.findIndex(e => e === x)`: the first position of `x`, or -1. */
  function IndexOf<T(==)>(s: seq<T>, x: T): (r: int)
    ensures -1 <= r < |s|
    ensures r == -1 <==> x !in s
    ensures r >= 0 ==> s[r] == x && x !in s[..r]
  {
    if s == [] then -1
    else if s[0] == x then 0
    else
      var k := IndexOf(s[1..], x);
      assert s[1..][..k + 1] == s[1..k + 2];
      if k == -1 then -1 else k + 1
  }

  /** `s.substring(start)` for a start that may fall outside the string. */
  function SubstringFrom(s: string, start: int): string {
    if start <= 0 then s else if start >= |s| then [] else s[start..]
  }

  /** `s.split(sep)` for a one-character separator: never empty; `"".split(sep)`
      is `[""]`. */
  function Split(s: string, sep: char): (parts: seq<string>)
    ensures |parts| >= 1
    ensures forall k :: 0 <= k < |parts| ==> sep !in parts[k]
  {
    if s == [] then [[]]
    else
      var rest := Split(s[1..], sep);
      if s[0] == sep then [[]] + rest else [[s[0]] + rest[0]] + rest[1..]
  }

  /** `parts.join(sep)`. */
  function Join(parts: seq<string>, sep: char): string {
    if |parts| == 0 then []
    else if |parts| == 1 then parts[0]
    else parts[0] + [sep] + Join(parts[1..], sep)
  }

  /** Splitting and joining again gives back the original text. */
  lemma {:induction false} JoinSplit(s: string, sep: char)
    ensures Join(Split(s, sep), sep) == s
  {
    if s != [] {
      var rest := Split(s[1..], sep);
      JoinSplit(s[1..], sep);
      if s[0] != sep {
        if |rest| == 1 {
          assert Split(s, sep) == [[s[0]] + rest[0]];
        } else {
          assert Split(s, sep)[1..] == rest[1..];
        }
      }
    }
  }

  /** Joining separator-free parts and splitting again gives back the parts. */
  lemma {:induction false} SplitJoin(parts: seq<string>, sep: char)
    requires |parts| >= 1
    requires forall k :: 0 <= k < |parts| ==> sep !in parts[k]
    ensures Split(Join(parts, sep), sep) == parts
    decreases |parts|, |parts[0]|
  {
    if |parts[0]| > 0 {
      var tail := [parts[0][1..]] + parts[1..];
      forall k | 0 <= k < |tail| ensures sep !in tail[k] {
        if k == 0 { assert forall c :: c in parts[0][1..] ==> c in parts[0]; }
        else { assert tail[k] == parts[k]; }
      }
      JoinPeel(parts, sep);
      SplitJoin(tail, sep);
      var x := Join(tail, sep);
      assert ([parts[0][0]] + x)[1..] == x;
      assert parts[0][0] != sep;
      assert [parts[0][0]] + tail[0] == parts[0];
      assert tail[1..] == parts[1..];
    } else if |parts| > 1 {
      SplitJoin(parts[1..], sep);
      assert Join(parts, sep) == [sep] + Join(parts[1..], sep);
      assert ([sep] + Join(parts[1..], sep))[1..] == Join(parts[1..], sep);
    }
  }

  /** Joining parts whose first part is non-empty starts with that part's first
      character, followed by the join of the shortened parts. */
  lemma {:induction false} JoinPeel(parts: seq<string>, sep: char)
    requires |parts| >= 1 && |parts[0]| > 0
    ensures Join(parts, sep) == [parts[0][0]] + Join([parts[0][1..]] + parts[1..], sep)
  {
    var tail := [parts[0][1..]] + parts[1..];
    if |parts| > 1 {
      assert tail[1..] == parts[1..];
    }
  }

  /** There are at least two parts exactly when the separator occurs. */
  lemma {:induction false} SplitCount(s: string, sep: char)
    ensures |Split(s, sep)| >= 2 <==> sep in s
  {
    if s != [] {
      SplitCount(s[1..], sep);
      assert sep in s <==> s[0] == sep || sep in s[1..];
    }
  }

  lemma PrefixStep(s: string, k: nat)
    requires k < |s|
    ensures s[..k + 1] == [s[0]] + s[1..][..k]
  {
    assert forall i :: 0 <= i < k ==> s[..k + 1][i + 1] == s[1..][..k][i];
  }

  /** The first part of a split is the text before the first separator. */
  lemma {:induction false} SplitFirstPart(s: string, sep: char)
    ensures var k := IndexOf(s, sep);
            Split(s, sep)[0] == if k >= 0 then s[..k] else s
  {
    if s != [] && s[0] != sep {
      SplitFirstPart(s[1..], sep);
      var k := IndexOf(s[1..], sep);
      assert Split(s, sep)[0] == [s[0]] + Split(s[1..], sep)[0];
      if k >= 0 {
        assert IndexOf(s, sep) == k + 1;
        PrefixStep(s, k);
      } else {
        assert IndexOf(s, sep) == -1;
      }
    }
  }

  /** The later parts of a split, joined again, are the text after the first
      separator. */
  lemma {:induction false} SplitRest(s: string, sep: char)
    requires sep in s
    ensures Join(Split(s, sep)[1..], sep) == s[IndexOf(s, sep) + 1..]
  {
    var rest := Split(s[1..], sep);
    if s[0] == sep {
      JoinSplit(s[1..], sep);
      assert Split(s, sep)[1..] == rest;
    } else {
      SplitRest(s[1..], sep);
      assert Split(s, sep)[1..] == rest[1..];
      assert s[1..][IndexOf(s[1..], sep) + 1..] == s[IndexOf(s, sep) + 1..];
    }
  }

  /** `s.replace(/\s+/g, "_")`: every maximal run of whitespace becomes one `_`. */
  function CollapseWhitespace(s: string): (r: string)
    ensures forall k :: 0 <= k < |r| ==> !IsWhitespace(r[k])
    decreases |s|
  {
    if s == [] then []
    else if IsWhitespace(s[0]) then "_" + CollapseWhitespace(TrimStart(s))
    else [s[0]] + CollapseWhitespace(s[1..])
  }

  /** JavaScript's `toLowerCase` on one character, for the Basic Latin and
      Latin-1 Supplement blocks. */
  function LowerChar(c: char): (r: char)
    ensures IsWhitespace(r) <==> IsWhitespace(c)
    ensures !('A' <= r <= 'Z')
    ensures 'A' <= c <= 'Z' ==> r as int == c as int + 32
    ensures r == c || r as int == c as int + 32
    ensures c as int < 0x80 ==> r as int < 0x80
  {
    if 'A' <= c <= 'Z' || ('\U{00C0}' <= c <= '\U{00DE}' && c != '\U{00D7}') then
      (c as int + 32) as char
    else c
  }

  function ToLower(s: string): (r: string)
    ensures |r| == |s|
    ensures forall k :: 0 <= k < |s| ==> r[k] == LowerChar(s[k])
  {
    if s == [] then [] else [LowerChar(s[0])] + ToLower(s[1..])
  }

  /** An ASCII capital and its small letter lower-case alike. */
  lemma LowerCharPairs(c: char)
    requires 'A' <= c <= 'Z'
    ensures LowerChar(c) == LowerChar((c as int + 32) as char) == (c as int + 32) as char
  {
  }

  /** Two texts that agree character by character once lower-cased. */
  ghost predicate SameUpToCase(a: string, b: string) {
    |a| == |b| && forall k :: 0 <= k < |a| ==> LowerChar(a[k]) == LowerChar(b[k])
  }

  lemma SameUpToCaseTail(a: string, b: string)
    requires SameUpToCase(a, b) && a != []
    ensures SameUpToCase(a[1..], b[1..])
    ensures LowerChar(a[0]) == LowerChar(b[0]) && (IsWhitespace(a[0]) <==> IsWhitespace(b[0]))
  {
    assert forall k :: 0 <= k < |a| - 1 ==> a[1..][k] == a[k + 1] && b[1..][k] == b[k + 1];
  }

  lemma SameUpToCaseCons(x: char, y: char, a: string, b: string)
    requires LowerChar(x) == LowerChar(y) && SameUpToCase(a, b)
    ensures SameUpToCase([x] + a, [y] + b)
  {
    forall k | 0 <= k < |a| + 1 ensures LowerChar(([x] + a)[k]) == LowerChar(([y] + b)[k]) {
      if k > 0 { assert ([x] + a)[k] == a[k - 1] && ([y] + b)[k] == b[k - 1]; }
    }
  }

  lemma {:induction false} TrimStartSameUpToCase(a: string, b: string)
    requires SameUpToCase(a, b)
    ensures SameUpToCase(TrimStart(a), TrimStart(b))
    decreases |a|
  {
    if a != [] {
      SameUpToCaseTail(a, b);
      if IsWhitespace(a[0]) {
        TrimStartSameUpToCase(a[1..], b[1..]);
      }
    }
  }

  lemma {:induction false} CollapseSameUpToCase(a: string, b: string)
    requires SameUpToCase(a, b)
    ensures SameUpToCase(CollapseWhitespace(a), CollapseWhitespace(b))
    decreases |a|
  {
    if a != [] {
      SameUpToCaseTail(a, b);
      if IsWhitespace(a[0]) {
        TrimStartSameUpToCase(a, b);
        CollapseSameUpToCase(TrimStart(a), TrimStart(b));
        SameUpToCaseCons('_', '_', CollapseWhitespace(TrimStart(a)), CollapseWhitespace(TrimStart(b)));
      } else {
        CollapseSameUpToCase(a[1..], b[1..]);
        SameUpToCaseCons(a[0], b[0], CollapseWhitespace(a[1..]), CollapseWhitespace(b[1..]));
      }
    }
  }

  lemma ToLowerSameUpToCase(a: string, b: string)
    requires SameUpToCase(a, b)
    ensures ToLower(a) == ToLower(b)
  {
  }

  /** The record-table key of a tab: `title.replace(/\s+/g, "_").toLowerCase()`. */
  function NormalizeTabId(title: string): string {
    ToLower(CollapseWhitespace(title))
  }

  /** A tab id holds no whitespace. */
  lemma NormalizeTabIdNoWhitespace(title: string)
    ensures forall k :: 0 <= k < |NormalizeTabId(title)| ==> !IsWhitespace(NormalizeTabId(title)[k])
  {
  }

  /** Titles that differ only in the length of one whitespace run share a tab
      id, and so share a record table. */
  lemma NormalizeTabIdRuns(a: string, w: string, w': string, b: string)
    requires w != [] && AllWhitespace(w) && w' != [] && AllWhitespace(w')
    requires a == [] || !IsWhitespace(a[|a| - 1])
    requires b == [] || !IsWhitespace(b[0])
    ensures NormalizeTabId(a + w + b) == NormalizeTabId(a + w' + b)
    ensures CollapseWhitespace(a + w + b) == CollapseWhitespace(a) + "_" + CollapseWhitespace(b)
  {
    CollapseConcat(a, w);
    CollapseConcat(a + w, b);
    CollapseRun(w);
    CollapseConcat(a, w');
    CollapseConcat(a + w', b);
    CollapseRun(w');
  }

  /** Titles that differ only in letter case, such as "Tab A" and "tab a",
      get the same id, and so share a record table. */
  lemma NormalizeTabIdCase(a: string, b: string)
    requires SameUpToCase(a, b)
    ensures NormalizeTabId(a) == NormalizeTabId(b)
  {
    CollapseSameUpToCase(a, b);
    ToLowerSameUpToCase(CollapseWhitespace(a), CollapseWhitespace(b));
  }

  lemma ConcatAssoc<T>(x: seq<T>, y: seq<T>, z: seq<T>)
    ensures x + (y + z) == (x + y) + z
  {
  }

  /** Leading whitespace of a concatenation: an all-whitespace first part is
      dropped whole; otherwise only the first part loses its leading run. */
  lemma {:induction false} TrimStartConcat(a: string, b: string)
    ensures AllWhitespace(a) ==> TrimStart(a + b) == TrimStart(b)
    ensures !AllWhitespace(a) ==> TrimStart(a + b) == TrimStart(a) + b
    decreases |a|
  {
    if a == [] {
      assert a + b == b;
    } else {
      assert (a + b)[0] == a[0];
      if IsWhitespace(a[0]) {
        assert (a + b)[1..] == a[1..] + b;
        assert TrimStart(a + b) == TrimStart(a[1..] + b);
        assert TrimStart(a) == TrimStart(a[1..]);
        assert AllWhitespace(a) <==> AllWhitespace(a[1..]) by {
          assert forall k :: 1 <= k < |a| ==> a[k] == a[1..][k - 1];
        }
        TrimStartConcat(a[1..], b);
      } else {
        assert !AllWhitespace(a);
        assert TrimStart(a + b) == a + b;
      }
    }
  }

  /** What is left of text that opens with whitespace but is not all
      whitespace: a shorter, non-empty suffix. */
  lemma TrimStartRest(a: string)
    requires a != [] && IsWhitespace(a[0]) && !AllWhitespace(a)
    ensures var t := TrimStart(a);
            t != [] && |t| < |a| && t[|t| - 1] == a[|a| - 1]
  {
    var t := TrimStart(a);
    assert t == TrimStart(a[1..]) && |TrimStart(a[1..])| <= |a| - 1;
    assert AllWhitespace(a[..|a| - |t|]);
    var k :| 0 <= k < |a| && !IsWhitespace(a[k]);
    assert forall j :: 0 <= j < |a| - |t| ==> a[j] == a[..|a| - |t|][j];
    assert |a| - |t| <= k;
    assert t == a[|a| - |t|..];
  }

  /** A non-empty run of whitespace becomes a single `_`. */
  lemma CollapseRun(w: string)
    requires w != [] && AllWhitespace(w)
    ensures CollapseWhitespace(w) == "_"
  {
    TrimStartConcat(w, []);
    assert w + [] == w;
  }

  /** `CollapseWhitespace` works piece by piece wherever the junction does not
      split a whitespace run: each run is replaced on its own. */
  lemma {:induction false} CollapseConcat(a: string, b: string)
    requires a == [] || b == [] || !IsWhitespace(a[|a| - 1]) || !IsWhitespace(b[0])
    ensures CollapseWhitespace(a + b) == CollapseWhitespace(a) + CollapseWhitespace(b)
    decreases |a|, 1
  {
    if a == [] {
      assert a + b == b;
    } else if !IsWhitespace(a[0]) {
      assert (a + b)[0] == a[0];
      assert (a + b)[1..] == a[1..] + b;
      assert CollapseWhitespace(a + b) == [a[0]] + CollapseWhitespace(a[1..] + b);
      if a[1..] != [] { assert a[1..][|a[1..]| - 1] == a[|a| - 1]; }
      CollapseConcat(a[1..], b);
      ConcatAssoc([a[0]], CollapseWhitespace(a[1..]), CollapseWhitespace(b));
    } else {
      CollapseConcatRun(a, b);
    }
  }

  /** The case of `CollapseConcat` where `a` opens with a whitespace run. */
  lemma {:induction false} CollapseConcatRun(a: string, b: string)
    requires a != [] && IsWhitespace(a[0])
    requires b == [] || !IsWhitespace(a[|a| - 1]) || !IsWhitespace(b[0])
    ensures CollapseWhitespace(a + b) == CollapseWhitespace(a) + CollapseWhitespace(b)
    decreases |a|, 0
  {
    TrimStartConcat(a, b);
    assert (a + b)[0] == a[0];
    assert CollapseWhitespace(a + b) == "_" + CollapseWhitespace(TrimStart(a + b));
    if AllWhitespace(a) {
      CollapseRun(a);
      assert TrimStart(b) == b;
    } else {
      var t := TrimStart(a);
      TrimStartRest(a);
      CollapseConcat(t, b);
      ConcatAssoc("_", CollapseWhitespace(t), CollapseWhitespace(b));
    }
  }

  lemma {:induction false} CollapseWithoutWhitespace(s: string)
    requires forall k :: 0 <= k < |s| ==> !IsWhitespace(s[k])
    ensures CollapseWhitespace(s) == s
  {
    if s != [] {
      CollapseWithoutWhitespace(s[1..]);
    }
  }
}
