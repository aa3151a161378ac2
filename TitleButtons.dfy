/** `extractTitleAndButtons` (lib/markup-parser.ts:242-261): the global scan of
    a heading's text with the regex `\[([^\]]+)\]`, one button per match, and the
    title left after deleting every match and trimming.

    The scan is modelled as a decomposition of the text into pieces: a plain
    character, or a bracketed segment `[label]` that the regex matched. The
    pieces concatenate back to the text, and the decomposition is the unique one
    in which every bracket holds a valid label and no plain `[` could have started
    a match: exactly what a leftmost, non-overlapping regex scan produces. */
module TitleButtons {
  import opened Wrappers
  import opened JsText
  import opened WindowTypes

  datatype Piece = Plain(c: char) | Bracket(labelText: string)

  function PieceText(p: Piece): string {
    match p
    case Plain(c) => [c]
    case Bracket(l) => "[" + l + "]"
  }

  /** The text a decomposition stands for. */
  function Flatten(t: seq<Piece>): string {
    if t == [] then [] else PieceText(t[0]) + Flatten(t[1..])
  }

  /** `s` starts with `[`, then `n` characters other than `]`, then `]`. */
  ghost predicate ClosesAt(s: string, n: int) {
    1 <= n && n + 1 < |s| && s[0] == '[' && s[n + 1] == ']'
    && forall k :: 1 <= k <= n ==> s[k] != ']'
  }

  /** The regex `\[([^\]]+)\]` matches at the start of `s`. */
  ghost predicate ButtonAt(s: string) {
    exists n :: ClosesAt(s, n)
  }

  /** What the capture group `[^\]]+` can hold. */
  ghost predicate ValidLabel(l: string) {
    |l| >= 1 && ']' !in l
  }

  /** A piece is acceptable in front of the text `from` (its own text included):
      a bracket holds a valid label, and a plain `[` does not start a match. */
  ghost predicate PieceOk(p: Piece, from: string) {
    && (p.Bracket? ==> ValidLabel(p.labelText))
    && (p == Plain('[') ==> !ButtonAt(from))
  }

  /** Every piece is acceptable where it stands. */
  ghost predicate LeftmostScan(t: seq<Piece>) {
    forall k :: 0 <= k < |t| ==> PieceOk(t[k], Flatten(t[k..]))
  }

  lemma LeftmostCons(p: Piece, r: seq<Piece>)
    ensures LeftmostScan([p] + r) <==> PieceOk(p, Flatten([p] + r)) && LeftmostScan(r)
  {
    var t := [p] + r;
    assert t[0..] == t;
    assert forall k :: 1 <= k < |t| ==> t[k] == r[k - 1] && t[k..] == r[k - 1..];
    if LeftmostScan(r) && PieceOk(p, Flatten(t)) {
      forall k | 0 <= k < |t| ensures PieceOk(t[k], Flatten(t[k..])) {
        if k > 0 { assert PieceOk(r[k - 1], Flatten(r[k - 1..])); }
      }
    }
    if LeftmostScan(t) {
      forall k | 0 <= k < |r| ensures PieceOk(r[k], Flatten(r[k..])) {
        assert PieceOk(t[k + 1], Flatten(t[k + 1..]));
      }
    }
  }

  /** The regex scan, one position at a time. */
  function Tokenize(s: string): seq<Piece>
    decreases |s|
  {
    if s == [] then []
    else
      var q := IndexOf(s[1..], ']');
      if s[0] == '[' && q >= 1 then [Bracket(s[1..q + 1])] + Tokenize(s[q + 2..])
      else [Plain(s[0])] + Tokenize(s[1..])
  }

  /** A match at the start of `s` closes at the first `]` after the opening `[`. */
  lemma ButtonAtFirstClose(s: string, n: int)
    requires s != []
    ensures ClosesAt(s, n) <==> s[0] == '[' && n == IndexOf(s[1..], ']') && n >= 1
  {
    var q := IndexOf(s[1..], ']');
    if ClosesAt(s, n) {
      assert s[1..][n] == ']';
    }
    if s[0] == '[' && n == q && n >= 1 {
      forall k | 1 <= k <= n ensures s[k] != ']' {
        assert s[1..][..q][k - 1] == s[k];
      }
    }
  }

  lemma FlattenCons(p: Piece, r: seq<Piece>)
    ensures Flatten([p] + r) == PieceText(p) + Flatten(r)
  {
    assert ([p] + r)[1..] == r;
  }

  /** A text opening with a bracketed segment that closes at `n + 1`. */
  lemma BracketSplit(s: string, n: nat)
    requires n + 1 < |s| && s[0] == '[' && s[n + 1] == ']'
    ensures s == PieceText(Bracket(s[1..n + 1])) + s[n + 2..]
  {
    var l := s[1..n + 1];
    assert s[..n + 2] == "[" + l + "]" by {
      forall k | 0 <= k < n + 2 ensures s[..n + 2][k] == ("[" + l + "]")[k] {
        if 0 < k <= n { assert ("[" + l + "]")[k] == l[k - 1]; }
      }
    }
    assert s == s[..n + 2] + s[n + 2..];
  }

  lemma PlainSplit(s: string)
    requires s != []
    ensures s == PieceText(Plain(s[0])) + s[1..]
  {
  }

  /** The scan loses no text. */
  lemma {:induction false} TokenizeFlatten(s: string)
    ensures Flatten(Tokenize(s)) == s
    decreases |s|
  {
    if s != [] {
      var q := IndexOf(s[1..], ']');
      if s[0] == '[' && q >= 1 {
        BracketSplit(s, q);
        TokenizeFlatten(s[q + 2..]);
        FlattenCons(Bracket(s[1..q + 1]), Tokenize(s[q + 2..]));
      } else {
        PlainSplit(s);
        TokenizeFlatten(s[1..]);
        FlattenCons(Plain(s[0]), Tokenize(s[1..]));
      }
    }
  }

  /** The scan yields a leftmost decomposition. */
  lemma {:induction false} TokenizeLeftmost(s: string)
    ensures LeftmostScan(Tokenize(s))
    decreases |s|
  {
    if s != [] {
      var q := IndexOf(s[1..], ']');
      TokenizeFlatten(s);
      if s[0] == '[' && q >= 1 {
        var rest := s[q + 2..];
        TokenizeLeftmost(rest);
        var p := Bracket(s[1..q + 1]);
        assert ']' !in s[1..][..q];
        assert s[1..q + 1] == s[1..][..q];
        assert PieceOk(p, s);
        LeftmostCons(p, Tokenize(rest));
      } else {
        var rest := s[1..];
        TokenizeLeftmost(rest);
        var p := Plain(s[0]);
        if s[0] == '[' {
          forall n | true ensures !ClosesAt(s, n) { ButtonAtFirstClose(s, n); }
        }
        assert PieceOk(p, s);
        LeftmostCons(p, Tokenize(rest));
      }
    }
  }

  /** The scan of a text that opens with `[label]`, for a valid label. */
  lemma TokenizeBracket(l: string, tail: string)
    requires ValidLabel(l)
    ensures Tokenize(PieceText(Bracket(l)) + tail) == [Bracket(l)] + Tokenize(tail)
  {
    var s := PieceText(Bracket(l)) + tail;
    assert s[0] == '[';
    assert s[1..|l| + 1] == l;
    assert s[|l| + 2..] == tail;
    assert IndexOf(s[1..], ']') == |l| by {
      assert ClosesAt(s, |l|) by {
        forall k | 1 <= k <= |l| ensures s[k] != ']' { assert s[k] == l[k - 1]; }
      }
      ButtonAtFirstClose(s, |l|);
    }
  }

  /** The scan of a text that opens with a plain character that starts no match. */
  lemma TokenizePlain(c: char, tail: string)
    requires PieceOk(Plain(c), [c] + tail)
    ensures Tokenize([c] + tail) == [Plain(c)] + Tokenize(tail)
  {
    var s := [c] + tail;
    assert s[1..] == tail;
    if c == '[' {
      var q := IndexOf(s[1..], ']');
      if q >= 1 { ButtonAtFirstClose(s, q); }
    }
  }

  /** The leftmost decomposition of a text is unique: it is the one the scan
      produces. */
  lemma {:induction false} TokenizeUnique(t: seq<Piece>)
    requires LeftmostScan(t)
    ensures Tokenize(Flatten(t)) == t
  {
    if t != [] {
      var tail := Flatten(t[1..]);
      assert t == [t[0]] + t[1..];
      LeftmostCons(t[0], t[1..]);
      TokenizeUnique(t[1..]);
      FlattenCons(t[0], t[1..]);
      match t[0]
      case Bracket(l) => TokenizeBracket(l, tail);
      case Plain(c) => TokenizePlain(c, tail);
    }
  }

  function Labels(t: seq<Piece>): seq<string> {
    if t == [] then []
    else (if t[0].Bracket? then [t[0].labelText] else []) + Labels(t[1..])
  }

  /** The text with every bracketed segment deleted. */
  function PlainText(t: seq<Piece>): string {
    if t == [] then []
    else (if t[0].Plain? then [t[0].c] else []) + PlainText(t[1..])
  }

  lemma {:induction false} LabelsEmptyIffAllPlain(t: seq<Piece>)
    ensures Labels(t) == [] <==> forall k :: 0 <= k < |t| ==> t[k].Plain?
  {
    if t != [] {
      LabelsEmptyIffAllPlain(t[1..]);
      assert forall k :: 1 <= k < |t| ==> t[k] == t[1..][k - 1];
    }
  }

  datatype TitleAndButtons = TitleAndButtons(title: string, buttons: Option<seq<Button>>)

  /** One declaration-time button per label: no context. */
  function ToButtons(labels: seq<string>): (bs: seq<Button>)
    ensures |bs| == |labels|
    ensures forall i :: 0 <= i < |bs| ==> bs[i] == Button(labels[i], None)
  {
    seq(|labels|, i requires 0 <= i < |labels| => Button(labels[i], None))
  }

  function ExtractTitleAndButtons(text: string): (r: TitleAndButtons)
    ensures r.title == [] || (!IsWhitespace(r.title[0]) && !IsWhitespace(r.title[|r.title| - 1]))
    ensures r.buttons.Some? ==> |r.buttons.value| >= 1
  {
    var t := Tokenize(text);
    var labels := Labels(t);
    TitleAndButtons(Trim(PlainText(t)), if |labels| > 0 then Some(ToButtons(labels)) else None)
  }

  /** Against any leftmost decomposition of the text: one button per bracketed
      segment, labelled with its contents, in left-to-right order and without a
      context; `buttons` undefined exactly when no segment matched; the title is
      the rest of the text, trimmed. */
  lemma ExtractTitleAndButtonsSpec(text: string, t: seq<Piece>)
    requires LeftmostScan(t) && Flatten(t) == text
    ensures ExtractTitleAndButtons(text).title == Trim(PlainText(t))
    ensures ExtractTitleAndButtons(text).buttons.None? <==> forall k :: 0 <= k < |t| ==> t[k].Plain?
    ensures ExtractTitleAndButtons(text).buttons.Some? ==>
              ExtractTitleAndButtons(text).buttons.value == ToButtons(Labels(t))
    ensures forall k :: 0 <= k < |Labels(t)| ==> ValidLabel(Labels(t)[k])
  {
    TokenizeUnique(t);
    LabelsEmptyIffAllPlain(t);
    LabelsValid(t);
  }

  lemma {:induction false} LabelsValid(t: seq<Piece>)
    requires LeftmostScan(t)
    ensures forall k :: 0 <= k < |Labels(t)| ==> ValidLabel(Labels(t)[k])
  {
    if t != [] {
      assert t == [t[0]] + t[1..];
      LeftmostCons(t[0], t[1..]);
      LabelsValid(t[1..]);
    }
  }
}
