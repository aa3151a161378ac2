/** What `parseWindowMarkup` makes of single lines: the two errors, the blank
    line filter, and how a line is classified (lib/markup-parser.ts:4-14,
    41-43, 74-89, 134-153). */
module LineProperties {
  import opened Wrappers
  import opened JsText
  import opened WindowTypes
  import opened TitleButtons
  import opened MarkupScan
  import opened MarkupParser

  // ---------------------------------------------------------------- blank lines

  lemma NonBlankCons(x: string, xs: seq<string>)
    ensures NonBlank([x] + xs) == (if Trim(x) != [] then [x] else []) + NonBlank(xs)
  {
    assert ([x] + xs)[1..] == xs;
  }

  /** A single line is kept exactly when its trimmed text is not empty. */
  lemma NonBlankSingleton(x: string)
    ensures Trim(x) != [] ==> NonBlank([x]) == [x]
    ensures Trim(x) == [] ==> NonBlank([x]) == []
  {
    NonBlankCons(x, []);
  }

  /** The filter works line by line: on a concatenation it keeps the kept
      lines of each part, in order. With `NonBlankSingleton` this pins the
      filter down to `filter(line => line.trim() !== "")`. */
  lemma {:induction false} NonBlankConcat(a: seq<string>, b: seq<string>)
    ensures NonBlank(a + b) == NonBlank(a) + NonBlank(b)
    decreases |a|
  {
    if a != [] {
      var h := if Trim(a[0]) != [] then [a[0]] else [];
      ConsConcat(a, b);
      NonBlankCons(a[0], a[1..] + b);
      NonBlankCons(a[0], a[1..]);
      NonBlankConcat(a[1..], b);
      ConcatAssoc(h, NonBlank(a[1..]), NonBlank(b));
    } else {
      assert a + b == b;
    }
  }

  lemma ConsConcat<T>(a: seq<T>, b: seq<T>)
    requires a != []
    ensures a + b == [a[0]] + (a[1..] + b) && a == [a[0]] + a[1..]
  {
  }

  lemma AllWhitespaceConcat(a: string, b: string)
    ensures AllWhitespace(a + b) <==> AllWhitespace(a) && AllWhitespace(b)
  {
    if AllWhitespace(a) && AllWhitespace(b) {
      forall k | 0 <= k < |a + b| ensures IsWhitespace((a + b)[k]) {
        if k >= |a| { assert (a + b)[k] == b[k - |a|]; }
      }
    }
    if AllWhitespace(a + b) {
      forall k | 0 <= k < |b| ensures IsWhitespace(b[k]) {
        assert (a + b)[k + |a|] == b[k];
      }
      forall k | 0 <= k < |a| ensures IsWhitespace(a[k]) {
        assert (a + b)[k] == a[k];
      }
    }
  }

  /** Parts joined by a whitespace separator are all whitespace exactly when
      every part is. */
  lemma {:induction false} AllWhitespaceJoin(parts: seq<string>, sep: char)
    requires IsWhitespace(sep)
    ensures AllWhitespace(Join(parts, sep)) <==> forall k :: 0 <= k < |parts| ==> AllWhitespace(parts[k])
  {
    if |parts| > 1 {
      AllWhitespaceJoin(parts[1..], sep);
      AllWhitespaceConcat(parts[0] + [sep], Join(parts[1..], sep));
      AllWhitespaceConcat(parts[0], [sep]);
      assert forall k :: 1 <= k < |parts| ==> parts[k] == parts[1..][k - 1];
    }
  }

  /** The filter keeps nothing exactly when every line is blank. */
  lemma {:induction false} NonBlankEmpty(lines: seq<string>)
    ensures NonBlank(lines) == [] <==> forall k :: 0 <= k < |lines| ==> Trim(lines[k]) == []
  {
    if lines != [] {
      assert lines == [lines[0]] + lines[1..];
      NonBlankCons(lines[0], lines[1..]);
      NonBlankEmpty(lines[1..]);
      assert forall k :: 1 <= k < |lines| ==> lines[k] == lines[1..][k - 1];
    }
  }

  /** The lines of `s` are all blank exactly when `s` is all whitespace. */
  lemma NonBlankSplitEmpty(s: string)
    ensures NonBlank(Split(s, '\n')) == [] <==> AllWhitespace(s)
  {
    var parts := Split(s, '\n');
    JoinSplit(s, '\n');
    AllWhitespaceJoin(parts, '\n');
    NonBlankEmpty(parts);
    forall k | 0 <= k < |parts| ensures Trim(parts[k]) == [] <==> AllWhitespace(parts[k]) {
      TrimEmptyIffAllWhitespace(parts[k]);
    }
  }

  /** Line `j` is the first line that is not blank. */
  ghost predicate FirstNonBlankAt(lines: seq<string>, j: int) {
    0 <= j < |lines| && Trim(lines[j]) != [] && forall k :: 0 <= k < j ==> Trim(lines[k]) == []
  }

  /** The filter keeps the non-blank lines in order: its first line is the
      first non-blank line, and every line it keeps is non-blank. */
  lemma {:induction false} NonBlankFirst(lines: seq<string>)
    requires NonBlank(lines) != []
    ensures exists j :: FirstNonBlankAt(lines, j) && NonBlank(lines)[0] == lines[j]
  {
    var rest := NonBlank(lines[1..]);
    if Trim(lines[0]) != [] {
      assert NonBlank(lines)[0] == lines[0];
      assert FirstNonBlankAt(lines, 0);
    } else {
      assert NonBlank(lines) == rest;
      NonBlankFirst(lines[1..]);
      var j :| FirstNonBlankAt(lines[1..], j) && rest[0] == lines[1..][j];
      assert FirstNonBlankAt(lines, j + 1) by {
        forall k | 0 <= k < j + 1 ensures Trim(lines[k]) == [] {
          if k > 0 { assert lines[k] == lines[1..][k - 1]; }
        }
      }
      assert NonBlank(lines)[0] == lines[j + 1];
    }
  }

  lemma {:induction false} NonBlankKeepsNonBlank(lines: seq<string>)
    ensures forall k :: 0 <= k < |NonBlank(lines)| ==> Trim(NonBlank(lines)[k]) != []
  {
    if lines != [] {
      var rest := NonBlank(lines[1..]);
      NonBlankKeepsNonBlank(lines[1..]);
      if Trim(lines[0]) != [] {
        assert NonBlank(lines) == [lines[0]] + rest;
        forall k | 0 <= k < |NonBlank(lines)| ensures Trim(NonBlank(lines)[k]) != [] {
          if k > 0 { assert NonBlank(lines)[k] == rest[k - 1]; }
        }
      } else {
        assert NonBlank(lines) == rest;
      }
    }
  }

  /** The error contract: "Markup cannot be empty" exactly when the markup is
      all whitespace; otherwise the level-0-title error exactly when the first
      non-blank line does not start with `"# "`; every other markup parses. */
  lemma ParseOutcome(markup: string)
    ensures ParseSpec(markup) == Failure(EmptyMarkup) <==> AllWhitespace(markup)
    ensures !AllWhitespace(markup) ==> exists j :: FirstNonBlankAt(Split(markup, '\n'), j)
    ensures forall j :: FirstNonBlankAt(Split(markup, '\n'), j) ==>
              (ParseSpec(markup) == Failure(MissingTitle) <==> !StartsWith(Split(markup, '\n')[j], "# "))
              && (ParseSpec(markup).Success? <==> StartsWith(Split(markup, '\n')[j], "# "))
  {
    var lines := Split(markup, '\n');
    ParseSpecByLines(markup);
    NonBlankSplitEmpty(markup);
    if !AllWhitespace(markup) {
      NonBlankFirst(lines);
      var j :| FirstNonBlankAt(lines, j) && NonBlank(lines)[0] == lines[j];
      assert NonBlankLines(markup)[0] == lines[j];
      forall j' | FirstNonBlankAt(lines, j') ensures j' == j {
        FirstNonBlankUnique(lines, j, j');
      }
      assert FirstNonBlankAt(lines, j);
    } else {
      NonBlankEmpty(lines);
    }
  }

  lemma FirstNonBlankUnique(lines: seq<string>, j: int, j': int)
    requires FirstNonBlankAt(lines, j) && FirstNonBlankAt(lines, j')
    ensures j == j'
  {
  }

  /** The outcome of a parse, decided by the filtered lines alone. */
  lemma ParseSpecByLines(markup: string)
    ensures ParseSpec(markup) == Failure(EmptyMarkup) <==> NonBlankLines(markup) == []
    ensures NonBlankLines(markup) != [] ==>
              (ParseSpec(markup) == Failure(MissingTitle) <==> !StartsWith(NonBlankLines(markup)[0], "# "))
              && (ParseSpec(markup).Success? <==> StartsWith(NonBlankLines(markup)[0], "# "))
  {
  }

  // ---------------------------------------------------------------- classification

  /** A field line's name is the text before the first `:`, trimmed; its value
      is the text after it, trimmed; a bullet without `:` has no field. */
  lemma FieldPartsSpec(content: string)
    ensures FieldParts(content).None? <==> ':' !in content
    ensures ':' in content ==>
              FieldParts(content) == Some((Trim(content[..IndexOf(content, ':')]),
                                           Trim(content[IndexOf(content, ':') + 1..])))
  {
    SplitCount(content, ':');
    if ':' in content {
      var parts := Split(content, ':');
      var k := IndexOf(content, ':');
      SplitFirstPart(content, ':');
      SplitRest(content, ':');
      assert parts[0] == content[..k];
      assert Join(parts[1..], ':') == content[k + 1..];
      assert FieldParts(content) == Some((Trim(parts[0]), Trim(Join(parts[1..], ':'))));
    }
  }

  lemma SubstringFromNotIn(s: string, start: int, c: char)
    requires c !in s
    ensures c !in SubstringFrom(s, start)
  {
  }

  lemma TrimNotIn(s: string, c: char)
    requires c !in s
    ensures c !in Trim(s)
  {
    TrimInfix(s);
  }

  /** Trimming keeps a first character that is not whitespace. */
  lemma TrimStartsWithNonBlank(s: string)
    requires s != [] && !IsWhitespace(s[0])
    ensures Trim(s) != [] && Trim(s)[0] == s[0]
  {
    assert TrimStart(s) == s;
  }

  /** A bullet line without `:` is ignored: the scan state does not change. */
  lemma BulletWithoutColonIgnored(st: ScanState, line: string)
    requires Wf(st) && StartsWith(line, "- ") && ':' !in line
    ensures Step(st, line) == st
  {
    var content := Trim(SubstringFrom(line, 2));
    SubstringFromNotIn(line, 2, ':');
    TrimNotIn(SubstringFrom(line, 2), ':');
    FieldPartsSpec(content);
    StartsWithExclusive(line, "- ", NoteMarker);
    StartsWithExclusive(line, "- ", TipMarker);
    StartsWithExclusive(line, "- ", WarningMarker);
    StartsWithExclusive(line, "- ", "#");
    assert !IsBareButton(Trim(line)) by {
      StartsWithAt(line, "- ", 0);
      TrimStartsWithNonBlank(line);
    }
    StepByKind(st, line);
  }

  /** A heading's level is its number of leading `#` minus one, and its title
      and buttons come from the text after the `#` run. */
  lemma HeadingLevel(line: string, tabOpen: bool)
    requires !IsAnnotation(line) && StartsWith(line, "#")
    ensures Classify(line, tabOpen).HeadingLine?
    ensures Classify(line, tabOpen).level + 1 == LeadingHashes(line)
    ensures forall k :: 0 <= k <= Classify(line, tabOpen).level ==> line[k] == '#'
    ensures Classify(line, tabOpen).level + 1 == |line| || line[Classify(line, tabOpen).level + 1] != '#'
  {
    StartsWithAt(line, "#", 0);
  }

  /** A bare button line: the trimmed line is `[label]` with a label of at
      least one character and no line terminator. */
  lemma ButtonLineLabel(line: string, tabOpen: bool)
    requires Classify(line, tabOpen).ButtonLine?
    ensures tabOpen && !IsAnnotation(line) && !StartsWith(line, "#")
    ensures var l := Classify(line, tabOpen).buttonLabel;
            Trim(line) == "[" + l + "]" && |l| >= 1
            && forall k :: 0 <= k < |l| ==> !IsLineTerminator(l[k])
  {
    assert IsBareButton(Trim(line));
    BareButtonLabel(Trim(line));
  }

  /** The converse of `ButtonLineLabel`: with a tab open, a line that is no
      annotation or heading and whose trimmed text is `[label]` is a button
      line with that label. */
  lemma ButtonLineClassified(line: string, tabOpen: bool, l: string)
    requires tabOpen && !IsAnnotation(line) && !StartsWith(line, "#")
    requires Trim(line) == "[" + l + "]" && |l| >= 1
    requires forall k :: 0 <= k < |l| ==> !IsLineTerminator(l[k])
    ensures Classify(line, tabOpen) == ButtonLine(l)
  {
    var t := Trim(line);
    assert t[1..|t| - 1] == l;
    forall k | 1 <= k < |t| - 1 ensures !IsLineTerminator(t[k]) {
      assert t[k] == l[k - 1];
    }
    assert IsBareButton(t);
  }

  /** With a tab open, a `- ` line that is no annotation is classified by its
      content alone; `BulletKindSpec` says what that content makes it. */
  lemma BulletClassified(line: string, tabOpen: bool)
    requires tabOpen && !IsAnnotation(line) && StartsWith(line, "- ")
    ensures Classify(line, tabOpen) == BulletKind(Trim(SubstringFrom(line, 2)))
  {
    BulletIsNoHeadingOrButton(line);
  }

  /** With a tab open, a `- ` line that is no annotation and whose content has
      a `:` is a field line; the name is the trimmed text before the first `:`
      and the value the trimmed rest. */
  lemma FieldLineClassified(line: string, tabOpen: bool)
    requires tabOpen && !IsAnnotation(line) && StartsWith(line, "- ")
    ensures var content := Trim(SubstringFrom(line, 2));
            ':' in content ==>
              Classify(line, tabOpen) == FieldLine(Trim(content[..IndexOf(content, ':')]),
                                                   Trim(content[IndexOf(content, ':') + 1..]))
  {
    BulletClassified(line, tabOpen);
    BulletKindSpec(Trim(SubstringFrom(line, 2)));
  }

  /** ... and without a `:` in its content such a line is ignored. */
  lemma BulletWithoutColonClassified(line: string, tabOpen: bool)
    requires tabOpen && !IsAnnotation(line) && StartsWith(line, "- ")
    ensures ':' !in Trim(SubstringFrom(line, 2)) ==> Classify(line, tabOpen) == OtherLine
  {
    BulletClassified(line, tabOpen);
    BulletKindSpec(Trim(SubstringFrom(line, 2)));
  }

  lemma BulletKindSpec(content: string)
    ensures ':' in content ==>
              BulletKind(content) == FieldLine(Trim(content[..IndexOf(content, ':')]),
                                               Trim(content[IndexOf(content, ':') + 1..]))
    ensures ':' !in content ==> BulletKind(content) == OtherLine
  {
    FieldPartsSpec(content);
  }

  lemma BulletIsNoHeadingOrButton(line: string)
    requires StartsWith(line, "- ")
    ensures !StartsWith(line, "#") && !IsBareButton(Trim(line))
  {
    StartsWithAt(line, "- ", 0);
    TrimStartsWithNonBlank(line);
  }

  lemma BareButtonLabel(t: string)
    requires IsBareButton(t)
    ensures var l := t[1..|t| - 1];
            t == "[" + l + "]" && |l| >= 1 && forall k :: 0 <= k < |l| ==> !IsLineTerminator(l[k])
  {
    var l := t[1..|t| - 1];
    assert t == "[" + l + "]";
    forall k | 0 <= k < |l| ensures !IsLineTerminator(l[k]) {
      assert l[k] == t[k + 1];
    }
  }

  /** The note type is found by `includes` over the whole line, NOTE first,
      then TIP, then WARNING. */
  lemma AnnotationTypeSpec(line: string)
    requires IsAnnotation(line)
    ensures StartsWith(line, NoteMarker) ==> AnnotationType(line) == Note
    ensures StartsWith(line, TipMarker) && !Contains(line, "[!NOTE]") ==> AnnotationType(line) == Tip
    ensures AnnotationType(line) == Warning ==> StartsWith(line, WarningMarker)
    ensures StartsWith(line, WarningMarker) && !Contains(line, "[!NOTE]") && !Contains(line, "[!TIP]") ==>
              AnnotationType(line) == Warning
    ensures Contains(line, "[!NOTE]") ==> AnnotationType(line) == Note
    ensures !Contains(line, "[!NOTE]") && Contains(line, "[!TIP]") ==> AnnotationType(line) == Tip
    ensures forall tabOpen :: Classify(line, tabOpen) == AnnotationLine(AnnotationType(line), AnnotationText(line))
  {
    if StartsWith(line, NoteMarker) {
      ContainsInfix(line, 2, "[!NOTE]");
    }
    if StartsWith(line, TipMarker) {
      ContainsInfix(line, 2, "[!TIP]");
    }
  }

  /** The first `]` of a line that starts with a marker ending in its only
      `]` is the marker's last character. */
  lemma FirstCloseAfterMarker(line: string, m: string)
    requires StartsWith(line, m) && m != [] && m[|m| - 1] == ']' && ']' !in m[..|m| - 1]
    ensures IndexOf(line, ']') == |m| - 1
  {
    assert line[..|m|] == m;
    assert line[..|m| - 1] == m[..|m| - 1];
    assert line[|m| - 1] == ']';
    assert forall k :: 0 <= k < |m| - 1 ==> line[k] == line[..|m| - 1][k];
  }

  /** A marker ending in its only `]` is one `AnnotationText` cuts after. */
  predicate ClosesOnce(m: string) {
    m != [] && m[|m| - 1] == ']' && ']' !in m[..|m| - 1]
  }

  lemma MarkersCloseOnce()
    ensures ClosesOnce(NoteMarker) && ClosesOnce(TipMarker) && ClosesOnce(WarningMarker)
  {
    assert NoteMarker[..|NoteMarker| - 1] == "> [!NOTE";
    assert TipMarker[..|TipMarker| - 1] == "> [!TIP";
    assert WarningMarker[..|WarningMarker| - 1] == "> [!WARNING";
  }

  lemma AnnotationTextAfter(line: string, m: string)
    requires StartsWith(line, m) && ClosesOnce(m)
    ensures AnnotationText(line) == Trim(line[|m|..])
  {
    FirstCloseAfterMarker(line, m);
    assert SubstringFrom(line, |m|) == line[|m|..];
  }

  /** An annotation's text is what follows its marker, trimmed: the first `]`
      of the line closes the marker. */
  lemma AnnotationTextSpec(line: string)
    ensures StartsWith(line, NoteMarker) ==> AnnotationText(line) == Trim(line[|NoteMarker|..])
    ensures StartsWith(line, TipMarker) ==> AnnotationText(line) == Trim(line[|TipMarker|..])
    ensures StartsWith(line, WarningMarker) ==> AnnotationText(line) == Trim(line[|WarningMarker|..])
  {
    MarkersCloseOnce();
    if StartsWith(line, NoteMarker) {
      AnnotationTextAfter(line, NoteMarker);
    }
    if StartsWith(line, TipMarker) {
      AnnotationTextAfter(line, TipMarker);
    }
    if StartsWith(line, WarningMarker) {
      AnnotationTextAfter(line, WarningMarker);
    }
  }

  lemma {:induction false} ContainsInfix(s: string, i: nat, p: string)
    requires i + |p| <= |s| && s[i..i + |p|] == p
    ensures Contains(s, p)
    decreases i
  {
    if i > 0 {
      assert s[1..][i - 1..i - 1 + |p|] == s[i..i + |p|];
      ContainsInfix(s[1..], i - 1, p);
    } else {
      assert s[..|p|] == p;
    }
  }
}
