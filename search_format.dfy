/**
 * How search results are rendered as chat text (src/plugins/qa/search.ts, `formatAnswer`
 * and the list functions): an answer preview cut to its first line and 100 characters,
 * with image codes replaced, and one entry per dialogue with its redirections beneath it.
 */
module SearchFormat {
  import opened Wrappers
  import opened Text
  import opened Dialogues

  const MaxAnswerLength := 100

  /** Two U+2026 characters: the mark of a cut answer. */
  const Ellipsis := "……"

  const ImageOpen := "[CQ:image,"
  const ImagePlaceholder := "[图片]"

  // ---------------------------------------------------------------------------------------
  // Line breaks: /(\r?\n|\$n)/

  /** `t` starts with a match of `\r?\n|\$n`. */
  predicate StartsWithBreak(t: string) {
    StartsWith(t, "\r\n") || StartsWith(t, "\n") || StartsWith(t, "$n")
  }

  /** `s` has a line break somewhere: `s.split(/(\r?\n|\$n)/)` has more than one element. */
  predicate HasBreak(s: string) {
    exists i :: 0 <= i < |s| && StartsWithBreak(s[i..])
  }

  /** A break inside the tail of `s` is a break of `s`, one position further on. */
  lemma BreakInTail(s: string)
    requires s != []
    ensures HasBreak(s) <==> StartsWithBreak(s) || HasBreak(s[1..])
  {
    assert s[0..] == s;
    if HasBreak(s[1..]) {
      var i :| 0 <= i < |s[1..]| && StartsWithBreak(s[1..][i..]);
      assert s[1..][i..] == s[i + 1..];
    }
    if HasBreak(s) && !StartsWithBreak(s) {
      var i :| 0 <= i < |s| && StartsWithBreak(s[i..]);
      assert s[i..] == s[1..][i - 1..];
    }
  }

  /**
   * `lines[0]` when `s.split(/(\r?\n|\$n)/)` has more than one element: the text before the
   * leftmost break; None when there is no break.
   */
  function FirstLine(s: string): (r: Option<string>)
    ensures r.Some? <==> HasBreak(s)
    ensures r.Some? ==> StartsWith(s, r.value) && |r.value| < |s| && StartsWithBreak(s[|r.value|..])
    ensures r.Some? ==> forall i :: 0 <= i < |r.value| ==> !StartsWithBreak(s[i..])
  {
    if s == [] then None
    else
      BreakInTail(s);
      if StartsWithBreak(s) then assert s[0..] == s; Some([])
      else
        match FirstLine(s[1..])
        case None => None
        case Some(t) =>
          FirstLineStep(s, t);
          Some([s[0]] + t)
  }

  /** The first line of the tail, behind the first character, is the first line of the text. */
  lemma FirstLineStep(s: string, t: string)
    requires s != [] && !StartsWithBreak(s)
    requires StartsWith(s[1..], t) && |t| < |s[1..]| && StartsWithBreak(s[1..][|t|..])
    requires forall i :: 0 <= i < |t| ==> !StartsWithBreak(s[1..][i..])
    ensures StartsWith(s, [s[0]] + t) && |[s[0]] + t| < |s| && StartsWithBreak(s[|[s[0]] + t|..])
    ensures forall i :: 0 <= i < |[s[0]] + t| ==> !StartsWithBreak(s[i..])
  {
    var line := [s[0]] + t;
    assert s[..|line|] == [s[0]] + s[1..][..|t|];
    assert s[|line|..] == s[1..][|t|..];
    forall i | 0 <= i < |line|
      ensures !StartsWithBreak(s[i..])
    {
      if i == 0 {
        assert s[0..] == s;
      } else {
        assert s[i..] == s[1..][i - 1..];
      }
    }
  }

  /** A prefix of `x` is a prefix of every extension of `x`, and the converse for short prefixes. */
  lemma StartsWithAppend(x: string, y: string, p: string)
    requires |p| <= |x|
    ensures StartsWith(x + y, p) <==> StartsWith(x, p)
  {
    assert (x + y)[..|p|] == x[..|p|];
  }

  /** Text after a break does not change the first line. */
  lemma {:induction false} FirstLineOfExtension(x: string, y: string)
    requires HasBreak(x)
    ensures FirstLine(x + y) == FirstLine(x)
    decreases |x|
  {
    BreakInTail(x);
    BreakInTail(x + y);
    assert (x + y)[1..] == x[1..] + y;
    if |x| == 1 {
      assert !HasBreak(x[1..]);
      assert x == "\n";
      StartsWithAppend(x, y, "\n");
    } else {
      StartsWithAppend(x, y, "\r\n");
      StartsWithAppend(x, y, "\n");
      StartsWithAppend(x, y, "$n");
      if !StartsWithBreak(x) {
        FirstLineOfExtension(x[1..], y);
      }
    }
  }

  /** A line feed anywhere in `s` is a break. */
  lemma LineFeedIsBreak(s: string, i: nat)
    requires i < |s| && s[i] == '\n'
    ensures HasBreak(s)
  {
    assert StartsWithBreak(s[i..]);
  }

  /** The first line holds no line feed. */
  lemma FirstLineHasNoLineFeed(s: string)
    requires HasBreak(s)
    ensures '\n' !in FirstLine(s).value
  {
    var l := FirstLine(s).value;
    forall i | 0 <= i < |l| ensures l[i] != '\n' {
      assert l[i] == s[i];
      if s[i] == '\n' { assert StartsWithBreak(s[i..]); }
    }
  }

  // ---------------------------------------------------------------------------------------
  // Image codes: /\[CQ:image,[^\]]+\]/g

  /** Index of the first `]` in `s` at or after `from`. */
  function CloseBracket(s: string, from: nat): (r: Option<nat>)
    ensures r.Some? ==> from <= r.value < |s| && s[r.value] == ']'
    ensures r.Some? ==> forall k :: from <= k < r.value ==> s[k] != ']'
    ensures r.None? ==> forall k :: from <= k < |s| ==> s[k] != ']'
    decreases |s| - from
  {
    if from >= |s| then None
    else if s[from] == ']' then Some(from)
    else CloseBracket(s, from + 1)
  }

  /** Length of the image code `[CQ:image,<one or more non-]>]` that starts `t`, if one does. */
  function ImageCodeLength(t: string): (r: Option<nat>)
    ensures r.Some? ==> |ImageOpen| + 2 <= r.value <= |t| && t[r.value - 1] == ']'
    ensures r.Some? <==> StartsWith(t, ImageOpen) && CloseBracket(t, |ImageOpen|).Some?
                         && CloseBracket(t, |ImageOpen|).value > |ImageOpen|
  {
    if !StartsWith(t, ImageOpen) then None
    else match CloseBracket(t, |ImageOpen|)
      case Some(j) => if j > |ImageOpen| then Some(j + 1) else None
      case None => None
  }

  /** Some image code occurs in `s`. */
  predicate HasImageCode(s: string) {
    exists i :: 0 <= i < |s| && ImageCodeLength(s[i..]).Some?
  }

  /** `s.replace(/\[CQ:image,[^\]]+\]/g, '[图片]')`: a left-to-right scan. */
  function ReplaceImages(s: string): string
    decreases |s|
  {
    if s == [] then []
    else match ImageCodeLength(s)
      case Some(n) => ImagePlaceholder + ReplaceImages(s[n..])
      case None => [s[0]] + ReplaceImages(s[1..])
  }

  /** The first position at or after `from` where an image code starts, or `|s|`. */
  function NextCode(s: string, from: nat): (m: nat)
    requires from <= |s|
    ensures from <= m <= |s|
    ensures m < |s| ==> ImageCodeLength(s[m..]).Some?
    ensures forall k :: from <= k < m ==> ImageCodeLength(s[k..]).None?
    decreases |s| - from
  {
    if from == |s| || ImageCodeLength(s[from..]).Some? then from else NextCode(s, from + 1)
  }

  /** A code found in a prefix is found, the same, in any extension. */
  lemma ImageCodeOfExtension(x: string, y: string)
    ensures ImageCodeLength(x).Some? ==> ImageCodeLength(x + y) == ImageCodeLength(x)
  {
    if ImageCodeLength(x).Some? {
      var j := CloseBracket(x, |ImageOpen|).value;
      assert (x + y)[..|ImageOpen|] == x[..|ImageOpen|];
      assert (x + y)[j] == ']';
      assert forall k :: |ImageOpen| <= k < j ==> (x + y)[k] == x[k];
    }
  }

  /** A code in an extension whose added part has no `]` is a code of the original. */
  lemma ImageCodeOfRestriction(x: string, y: string)
    requires forall k :: 0 <= k < |y| ==> y[k] != ']'
    ensures ImageCodeLength(x + y).Some? ==> ImageCodeLength(x).Some?
  {
    if ImageCodeLength(x + y).Some? {
      var j := CloseBracket(x + y, |ImageOpen|).value;
      assert j < |x|;
      assert x[..|ImageOpen|] == (x + y)[..|ImageOpen|];
      assert x[j] == ']';
      assert forall k :: |ImageOpen| <= k < j ==> (x + y)[k] == x[k];
    }
  }

  /** No image code survives in a prefix of a string without one. */
  lemma NoImageCodeInPrefix(t: string, n: nat)
    requires n <= |t| && !HasImageCode(t)
    ensures !HasImageCode(t[..n])
  {
    forall i | 0 <= i < n
      ensures ImageCodeLength(t[..n][i..]).None?
    {
      assert t[i..] == t[..n][i..] + t[n..];
      ImageCodeOfExtension(t[..n][i..], t[n..]);
    }
  }

  /** Appending characters that are neither `[` nor `]` creates no image code. */
  lemma NoImageCodeAppended(t: string, e: string)
    requires !HasImageCode(t)
    requires forall k :: 0 <= k < |e| ==> e[k] != ']' && e[k] != '['
    ensures !HasImageCode(t + e)
  {
    forall i | 0 <= i < |t + e|
      ensures ImageCodeLength((t + e)[i..]).None?
    {
      if i < |t| {
        assert (t + e)[i..] == t[i..] + e;
        ImageCodeOfRestriction(t[i..], e);
      }
    }
  }

  /** A string without image codes is left as it is. */
  lemma {:induction false} ReplaceImagesIdentity(s: string)
    requires !HasImageCode(s)
    ensures ReplaceImages(s) == s
    decreases |s|
  {
    if s != [] {
      assert s[0..] == s;
      assert !HasImageCode(s[1..]) by {
        forall i | 0 <= i < |s[1..]| ensures ImageCodeLength(s[1..][i..]).None? {
          assert s[1..][i..] == s[i + 1..];
        }
      }
      ReplaceImagesIdentity(s[1..]);
    }
  }

  /** Replacement never adds a character other than those of the placeholder. */
  lemma {:induction false} ReplaceImagesChars(s: string, c: char)
    requires c in ReplaceImages(s)
    ensures c in s || c in ImagePlaceholder
    decreases |s|
  {
    if s != [] {
      match ImageCodeLength(s)
      case Some(n) =>
        if c !in ImagePlaceholder {
          ReplaceImagesChars(s[n..], c);
          assert forall x :: x in s[n..] ==> x in s;
        }
      case None =>
        if c != s[0] {
          ReplaceImagesChars(s[1..], c);
          assert forall x :: x in s[1..] ==> x in s;
        }
    }
  }

  /** The scan copies the text up to the first image code. */
  lemma {:induction false} ReplaceImagesCopies(s: string, m: nat)
    requires m <= |s|
    requires forall k :: 0 <= k < m ==> ImageCodeLength(s[k..]).None?
    ensures ReplaceImages(s) == s[..m] + ReplaceImages(s[m..])
    decreases m
  {
    if m > 0 {
      var u := s[1..];
      ReplaceImagesCopiesFirst(s);
      NoCodeBeforeInTail(s, m);
      ReplaceImagesCopies(u, m - 1);
      assert u[m - 1..] == s[m..];
      CopiedPrefix(s, m, ReplaceImages(u), ReplaceImages(s[m..]));
    }
  }

  /** The first character, then `m - 1` copied characters of the tail, are `m` characters of `s`. */
  lemma CopiedPrefix(s: string, m: nat, copied: string, rest: string)
    requires 0 < m <= |s| && copied == s[1..][..m - 1] + rest
    ensures [s[0]] + copied == s[..m] + rest
  {
    assert s[..m] == [s[0]] + s[1..][..m - 1];
  }

  /** A first character that starts no image code is copied. */
  lemma ReplaceImagesCopiesFirst(s: string)
    requires s != [] && ImageCodeLength(s[0..]).None?
    ensures ReplaceImages(s) == [s[0]] + ReplaceImages(s[1..])
  {
    assert s[0..] == s;
  }

  /** No code starting before `m` in `s` means none starting before `m - 1` in its tail. */
  lemma NoCodeBeforeInTail(s: string, m: nat)
    requires 0 < m <= |s|
    requires forall k :: 0 <= k < m ==> ImageCodeLength(s[k..]).None?
    ensures forall k :: 0 <= k < m - 1 ==> ImageCodeLength(s[1..][k..]).None?
  {
    forall k | 0 <= k < m - 1 ensures ImageCodeLength(s[1..][k..]).None? {
      assert s[1..][k..] == s[k + 1..];
    }
  }

  /** `t` does not start with `p` when they differ at position `k`. */
  lemma DiffersAt(t: string, p: string, k: nat)
    requires k < |p| && k < |t| && t[k] != p[k]
    ensures !StartsWith(t, p)
  {
    assert |p| <= |t| ==> t[..|p|][k] == t[k];
  }

  /**
   * A string that starts no code and agrees with `r` before a `[` at `p`, where `s` also
   * has `[` and later a `]`: then `r` starts no code either.
   */
  lemma AgreeingPrefixStartsNoCode(s: string, r: string, p: nat, q: nat)
    requires ImageCodeLength(s).None?
    requires 1 <= p <= q < |s| && p < |r| && s[..p] == r[..p]
    requires s[p] == '[' && r[p] == '[' && s[q] == ']'
    ensures ImageCodeLength(r).None?
  {
    if StartsWith(r, ImageOpen) {
      if p < |ImageOpen| {
        DiffersAt(r, ImageOpen, p);
      }
      assert s[..|ImageOpen|] == r[..|ImageOpen|];
      assert CloseBracket(s, |ImageOpen|).Some?;
      assert s[|ImageOpen|] == ']';
      assert r[|ImageOpen|] == ']';
      assert CloseBracket(r, |ImageOpen|) == Some(|ImageOpen|);
    }
  }

  /** Up to the first image code of `u`, the scan copies; the code itself becomes the placeholder. */
  lemma CopyThenPlaceholder(c: char, u: string, m: nat)
    requires m < |u| && ImageCodeLength(u[m..]).Some?
    requires forall k :: 0 <= k < m ==> ImageCodeLength(u[k..]).None?
    ensures var r := [c] + ReplaceImages(u);
      m + 1 < |r| && r[..m + 1] == [c] + u[..m] && r[m + 1] == '['
  {
    ReplaceImagesCopies(u, m);
    var v := u[m..];
    var n := ImageCodeLength(v).value;
    var tail := ImagePlaceholder + ReplaceImages(v[n..]);
    assert ReplaceImages(v) == tail;
    assert [c] + ReplaceImages(u) == ([c] + u[..m]) + tail;
  }

  /** Where the scan copies a character that starts no code, no image code begins in the result. */
  lemma CopiedCharStartsNoCode(s: string)
    requires s != [] && ImageCodeLength(s).None?
    ensures ImageCodeLength([s[0]] + ReplaceImages(s[1..])).None?
  {
    var u := s[1..];
    var m := NextCode(u, 0);
    if m == |u| {
      ReplaceImagesCopies(u, m);
      assert u[..m] == u && u[m..] == [];
      assert [s[0]] + ReplaceImages(u) == s;
    } else {
      CopiedCharBeforeCode(s, m);
    }
  }

  /** The case of `CopiedCharStartsNoCode` where the rest of `s` has an image code at `m`. */
  lemma CopiedCharBeforeCode(s: string, m: nat)
    requires s != [] && ImageCodeLength(s).None?
    requires m < |s| - 1 && ImageCodeLength(s[1..][m..]).Some?
    requires forall k :: 0 <= k < m ==> ImageCodeLength(s[1..][k..]).None?
    ensures ImageCodeLength([s[0]] + ReplaceImages(s[1..])).None?
  {
    var u := s[1..];
    CopyThenPlaceholder(s[0], u, m);
    CodeBrackets(s, m);
    NoCodeAfterAgreement(s, m, ImageCodeLength(u[m..]).value, [s[0]] + ReplaceImages(u));
  }

  /** `r` agrees with `s` up to an image code of `s` and then opens a bracket: `r` starts no code. */
  lemma NoCodeAfterAgreement(s: string, m: nat, n: nat, r: string)
    requires s != [] && ImageCodeLength(s).None?
    requires 1 <= n && m + n < |s| && s[m + 1] == '[' && s[m + n] == ']'
    requires m + 1 < |r| && r[..m + 1] == [s[0]] + s[1..][..m] && r[m + 1] == '['
    ensures ImageCodeLength(r).None?
  {
    assert s[..m + 1] == [s[0]] + s[1..][..m];
    AgreeingPrefixStartsNoCode(s, r, m + 1, m + n);
  }

  /** An image code at `m` in the tail of `s` puts a `[` at `m + 1` of `s` and a `]` further on. */
  lemma CodeBrackets(s: string, m: nat)
    requires m < |s| - 1 && ImageCodeLength(s[1..][m..]).Some?
    ensures var n := ImageCodeLength(s[1..][m..]).value;
      1 <= n && m + n < |s| && s[m + 1] == '[' && s[m + n] == ']'
  {
    var v := s[1..][m..];
    assert v == s[m + 1..];
    assert v[..|ImageOpen|] == ImageOpen;
    assert v[0] == '[';
  }

  /** Every image code is replaced: the result contains none. */
  lemma {:induction false} ReplaceImagesRemovesCodes(s: string)
    ensures !HasImageCode(ReplaceImages(s))
    decreases |s|
  {
    if s != [] {
      var r := ReplaceImages(s);
      match ImageCodeLength(s)
      case Some(n) =>
        ReplaceImagesRemovesCodes(s[n..]);
        var rest := ReplaceImages(s[n..]);
        forall i | 0 <= i < |r| ensures ImageCodeLength(r[i..]).None? {
          assert r == ImagePlaceholder + rest;
          if i >= |ImagePlaceholder| {
            assert r[i..] == rest[i - |ImagePlaceholder|..];
          } else if i == 0 {
            if |r| > 1 { DiffersAt(r, ImageOpen, 1); }
          } else {
            DiffersAt(r[i..], ImageOpen, 0);
          }
        }
      case None =>
        ReplaceImagesRemovesCodes(s[1..]);
        var rest := ReplaceImages(s[1..]);
        CopiedCharStartsNoCode(s);
        forall i | 1 <= i < |r| ensures ImageCodeLength(r[i..]).None? {
          assert r[i..] == rest[i - 1..];
        }
        assert r[0..] == r;
    }
  }

  // ---------------------------------------------------------------------------------------
  // formatAnswer

  /**
   * The ellipsis `formatAnswer` puts on a cut answer: the shortest extension of `t` by
   * U+2026 characters that ends in two of them.
   */
  function Ellipsize(t: string): (r: string)
    ensures EndsWith(r, Ellipsis)
    ensures StartsWith(r, t) && |r| <= |t| + 2
    ensures forall i :: |t| <= i < |r| ==> r[i] == '…'
    ensures EndsWith(t, Ellipsis) ==> r == t
    ensures EndsWith(t, "…") ==> |r| <= |t| + 1
  {
    if EndsWith(t, Ellipsis) then t
    else if EndsWith(t, "…") then t + "…"
    else t + Ellipsis
  }

  /** The text `formatAnswer` works on: the trimmed first line, or the whole answer when it has one line. */
  function PreviewText(source: string): (r: string)
    ensures '\n' !in r
    ensures !HasBreak(source) ==> r == source
  {
    match FirstLine(source)
    case Some(line) =>
      FirstLineHasNoLineFeed(source);
      TrimKeepsChars(line);
      Trim(line)
    case None =>
      assert forall i :: 0 <= i < |source| && source[i] == '\n' ==> StartsWithBreak(source[i..]);
      source
  }

  /** Trimming only removes characters. */
  lemma TrimKeepsChars(s: string)
    ensures forall c :: c in Trim(s) ==> c in s
  {
    var t := TrimStart(s);
    assert forall c :: c in t ==> c in s;
    assert forall c :: c in TrimEnd(t) ==> c in t;
  }

  /** The first 100 characters, when there are more. */
  function Truncate(t: string): (r: string)
    ensures |r| <= MaxAnswerLength && StartsWith(t, r)
    ensures |t| <= MaxAnswerLength <==> r == t
  {
    if |t| > MaxAnswerLength then t[..MaxAnswerLength] else t
  }

  /**
   * `formatAnswer(source)` (search.ts:100-121): keep the trimmed first line, replace image
   * codes, cut at 100 characters, and mark a cut answer with an ellipsis.
   */
  function FormatAnswer(source: string): string {
    var replaced := ReplaceImages(PreviewText(source));
    var cut := Truncate(replaced);
    if HasBreak(source) || cut != replaced then Ellipsize(cut) else cut
  }

  /** `formatAnswer` as the source runs it: `source` and `trimmed` are reassigned step by step. */
  method RenderAnswer(source: string) returns (result: string)
    ensures result == FormatAnswer(source)
  {
    var trimmed := false;
    result := source;
    var first := FirstLine(source);
    if first.Some? {
      trimmed := true;
      result := Trim(first.value);
    }
    result := ReplaceImages(result);
    if |result| > MaxAnswerLength {
      trimmed := true;
      result := result[..MaxAnswerLength];
    }
    if trimmed && !EndsWith(result, Ellipsis) {
      if EndsWith(result, "…") {
        result := result + "…";
      } else {
        result := result + Ellipsis;
      }
    }
  }

  /** An answer is cut when it has a break or its replaced text is over 100 characters. */
  predicate IsCut(source: string) {
    HasBreak(source) || |ReplaceImages(source)| > MaxAnswerLength
  }

  /** A short single-line answer without image codes is shown as it is. */
  lemma FormatAnswerUnchanged(source: string)
    requires !HasBreak(source) && !HasImageCode(source) && |source| <= MaxAnswerLength
    ensures FormatAnswer(source) == source
  {
    ReplaceImagesIdentity(source);
  }

  /**
   * A cut answer always ends in the two-character ellipsis; an answer that is not cut is
   * exactly its image-replaced text.
   */
  lemma FormatAnswerMarksCut(source: string)
    ensures IsCut(source) ==> EndsWith(FormatAnswer(source), Ellipsis)
    ensures !IsCut(source) ==> FormatAnswer(source) == ReplaceImages(source)
  {
  }

  /** The preview is at most 100 characters plus two ellipsis characters. */
  lemma FormatAnswerLength(source: string)
    ensures |FormatAnswer(source)| <= MaxAnswerLength + 2
  {
  }

  /** The preview depends only on the first line, once there is a break. */
  lemma FormatAnswerOfSameFirstLine(x: string, y: string)
    requires HasBreak(x) && FirstLine(x) == FirstLine(y)
    ensures FormatAnswer(x) == FormatAnswer(y)
  {
    assert PreviewText(x) == PreviewText(y);
  }

  /** Nothing after the first line break, of any of the three kinds, reaches the preview. */
  lemma FormatAnswerFirstLineOnly(a: string, brk: string, b: string)
    requires brk == "\n" || brk == "\r\n" || brk == "$n"
    ensures FormatAnswer(a + brk + b) == FormatAnswer(a + brk)
  {
    assert (a + brk)[|a|..] == brk;
    assert StartsWithBreak((a + brk)[|a|..]);
    FirstLineOfExtension(a + brk, b);
    FormatAnswerOfSameFirstLine(a + brk, a + brk + b);
  }

  /** The preview is made of the characters of its text, the placeholder and the ellipsis. */
  lemma FormatAnswerChars(source: string, c: char)
    requires c in FormatAnswer(source)
    ensures c in PreviewText(source) || c in ImagePlaceholder || c == '…'
  {
    var replaced := ReplaceImages(PreviewText(source));
    var cut := Truncate(replaced);
    assert forall x :: x in cut ==> x in replaced;
    var e := Ellipsize(cut);
    assert forall i :: 0 <= i < |e| ==> e[i] == (if i < |cut| then cut[i] else '…');
    assert c in replaced || c == '…';
    if c in replaced {
      ReplaceImagesChars(PreviewText(source), c);
    }
  }

  /** The preview is a single line. */
  lemma FormatAnswerSingleLine(source: string)
    ensures '\n' !in FormatAnswer(source)
  {
    if '\n' in FormatAnswer(source) {
      FormatAnswerChars(source, '\n');
    }
  }

  /** The preview contains no image code, however it was cut. */
  lemma FormatAnswerNoImageCode(source: string)
    ensures !HasImageCode(FormatAnswer(source))
  {
    var replaced := ReplaceImages(PreviewText(source));
    ReplaceImagesRemovesCodes(PreviewText(source));
    TruncateNoImageCode(replaced);
    EllipsizeNoImageCode(Truncate(replaced));
  }

  /** Cutting a string without image codes leaves none. */
  lemma TruncateNoImageCode(t: string)
    requires !HasImageCode(t)
    ensures !HasImageCode(Truncate(t))
  {
    NoImageCodeInPrefix(t, |Truncate(t)|);
    assert t[..|Truncate(t)|] == Truncate(t);
  }

  /** The ellipsis adds no image code. */
  lemma EllipsizeNoImageCode(t: string)
    requires !HasImageCode(t)
    ensures !HasImageCode(Ellipsize(t))
  {
    var e := Ellipsize(t);
    var tail := e[|t|..];
    assert e == t + tail;
    assert forall k :: 0 <= k < |tail| ==> tail[k] == '…';
    NoImageCodeAppended(t, tail);
  }

  // ---------------------------------------------------------------------------------------
  // Details and list rendering

  /** `SearchDetails`: the tag array and its `questionType`/`answerType` properties. */
  datatype SearchDetails = SearchDetails(tags: seq<string>, questionType: Option<string>, answerType: Option<string>)

  const NoDetails := SearchDetails([], None, None)

  /** The `dialogue/detail-short` listener of search.ts: a pattern dialogue's question type is 正则. */
  function TagRegexp(d: Dialogue, details: SearchDetails): (r: SearchDetails)
    ensures r.tags == details.tags && r.answerType == details.answerType
    ensures HasFlag(d, RegexpBit) ==> r.questionType == Some("正则")
    ensures !HasFlag(d, RegexpBit) ==> r == details
  {
    if HasFlag(d, RegexpBit) then details.(questionType := Some("正则")) else details
  }

  /** The `dialogue/detail-short` listeners other plugins register, run after search.ts's. */
  type DetailProducer = (Dialogue, SearchDetails) -> SearchDetails

  /** `getDetails`: every `dialogue/detail-short` listener applied to an empty details list. */
  function GetDetails(d: Dialogue, others: DetailProducer): SearchDetails {
    others(d, TagRegexp(d, NoDetails))
  }

  /** `formatDetails`: `"<id>. "`, followed by `"[t1, t2] "` when there are tags. */
  function FormatDetails(d: Dialogue, details: SearchDetails): string {
    NatToDecimal(d.id) + ". " + (if details.tags == [] then "" else "[" + Join(details.tags, ", ") + "] ")
  }

  /** The number a rendered line starts with. */
  function LeadingNumber(s: string): nat {
    DecimalValue(s[..DigitRun(s)])
  }

  /**
   * A rendered detail prefix gives back the dialogue id, followed by `". "`; its tail is
   * empty or a bracketed tag list.
   */
  lemma FormatDetailsReadsBack(d: Dialogue, details: SearchDetails)
    ensures var r := FormatDetails(d, details);
      && LeadingNumber(r) == d.id
      && r[DigitRun(r)..][..2] == ". "
      && (details.tags == [] <==> |r| == DigitRun(r) + 2)
      && (details.tags != [] ==> EndsWith(r, "] ") && r[DigitRun(r) + 2] == '[')
  {
    var digits := NatToDecimal(d.id);
    var r := FormatDetails(d, details);
    var tail := r[|digits|..];
    assert r == digits + tail;
    assert tail[0] == '.';
    assert DigitRun(r) == |digits| by {
      DigitRunOfPrefix(digits, tail);
    }
    assert r[..DigitRun(r)] == digits;
    DecimalRoundTrip(d.id);
  }

  /** The digit run of a digit string followed by a non-digit is that string. */
  lemma {:induction false} DigitRunOfPrefix(digits: string, tail: string)
    requires IsDigits(digits) || digits == []
    requires tail != [] && !IsAsciiDigit(tail[0])
    ensures DigitRun(digits + tail) == |digits|
    decreases |digits|
  {
    if digits != [] {
      assert (digits + tail)[1..] == digits[1..] + tail;
      DigitRunOfPrefix(digits[1..], tail);
    } else {
      assert digits + tail == tail;
    }
  }

  /** `formatPrefix`: the details, then `[questionType] ` and, when asked, `[answerType] `. */
  function FormatPrefix(d: Dialogue, others: DetailProducer, showAnswerType: bool): string {
    var details := GetDetails(d, others);
    FormatDetails(d, details)
      + (if Present(details.questionType) then "[" + details.questionType.value + "] " else "")
      + (if showAnswerType && Present(details.answerType) then "[" + details.answerType.value + "] " else "")
  }

  /** Number of entries in a dialogue's redirection tree, itself included. */
  function Size(d: Dialogue): nat
    decreases d
  {
    1 + SizeAll(d.redirections)
  }

  function SizeAll(ds: seq<Dialogue>): nat
    decreases ds
  {
    if ds == [] then 0 else Size(ds[0]) + SizeAll(ds[1..])
  }

  /** The first line of an entry in `formatAnswers`. */
  function AnswerHead(d: Dialogue, prefix: string, others: DetailProducer): string {
    prefix + FormatPrefix(d, others, true) + FormatAnswer(d.answer)
  }

  /** `formatAnswers(argv, dialogues, prefix)` (search.ts:151-164). */
  function FormatAnswers(ds: seq<Dialogue>, prefix: string, others: DetailProducer): (r: seq<string>)
    ensures |r| == |ds|
    decreases SizeAll(ds), 2
  {
    if ds == [] then []
    else [AnswerEntry(ds[0], prefix, others)] + FormatAnswers(ds[1..], prefix, others)
  }

  /** One element of `formatAnswers`: the head line, then what `dialogue/list` pushed, joined by line feeds. */
  function AnswerEntry(d: Dialogue, prefix: string, others: DetailProducer): string
    decreases Size(d), 1
  {
    JoinLines([AnswerHead(d, prefix, others)] + ListLines(d, prefix, others))
  }

  /** The `dialogue/list` listener of search.ts (lines 62-65): the redirections, one level deeper. */
  function ListLines(d: Dialogue, prefix: string, others: DetailProducer): seq<string>
    decreases Size(d), 0
  {
    FormatAnswers(d.redirections, prefix + "= ", others)
  }

  /**
   * The lines of an entry read top-down: the dialogue's own line, then each redirection's
   * lines, each level indented by one more `"= "`.
   */
  function EntryLines(d: Dialogue, prefix: string, others: DetailProducer): (r: seq<string>)
    ensures r != [] && r[0] == AnswerHead(d, prefix, others)
    decreases d
  {
    [AnswerHead(d, prefix, others)] + Flatten(EntryGroups(d.redirections, prefix + "= ", others))
  }

  function EntryGroups(ds: seq<Dialogue>, prefix: string, others: DetailProducer): (r: seq<seq<string>>)
    ensures |r| == |ds|
    ensures forall i :: 0 <= i < |ds| ==> r[i] == EntryLines(ds[i], prefix, others)
    decreases ds
  {
    if ds == [] then [] else [EntryLines(ds[0], prefix, others)] + EntryGroups(ds[1..], prefix, others)
  }

  /** Each element of `formatAnswers` is the line-feed join of the entry's lines read top-down. */
  lemma {:induction false} AnswerEntryLines(d: Dialogue, prefix: string, others: DetailProducer)
    ensures AnswerEntry(d, prefix, others) == JoinLines(EntryLines(d, prefix, others))
    decreases d
  {
    var p := prefix + "= ";
    var groups := EntryGroups(d.redirections, p, others);
    forall i | 0 <= i < |d.redirections|
      ensures FormatAnswers(d.redirections, p, others)[i] == JoinLines(groups[i])
    {
      AnswerEntryLines(d.redirections[i], p, others);
      FormatAnswersAt(d.redirections, p, others, i);
    }
    assert FormatAnswers(d.redirections, p, others) == MapJoinLines(groups);
    JoinLinesOfJoins(AnswerHead(d, prefix, others), groups);
  }

  lemma {:induction false} FormatAnswersAt(ds: seq<Dialogue>, prefix: string, others: DetailProducer, i: nat)
    requires i < |ds|
    ensures FormatAnswers(ds, prefix, others)[i] == AnswerEntry(ds[i], prefix, others)
    decreases i
  {
    if i > 0 { FormatAnswersAt(ds[1..], prefix, others, i - 1); }
  }

  /** Every line in `lines` starts with `p`. */
  predicate AllStartWith(lines: seq<string>, p: string) {
    forall j :: 0 <= j < |lines| ==> StartsWith(lines[j], p)
  }

  /** Lines that start with a longer prefix start with each shorter one. */
  lemma AllStartWithShorter(lines: seq<string>, p: string, q: string)
    requires AllStartWith(lines, p + q)
    ensures AllStartWith(lines, p)
  {
    forall j | 0 <= j < |lines| ensures StartsWith(lines[j], p) {
      assert lines[j][..|p|] == lines[j][..|p + q|][..|p|];
    }
  }

  /** An entry has one line per dialogue of its redirection tree. */
  lemma {:induction false} EntryLinesCount(d: Dialogue, prefix: string, others: DetailProducer)
    ensures |EntryLines(d, prefix, others)| == Size(d)
    decreases d
  {
    var p := prefix + "= ";
    var groups := EntryGroups(d.redirections, p, others);
    forall i | 0 <= i < |groups| ensures |groups[i]| == Size(d.redirections[i]) {
      EntryLinesCount(d.redirections[i], p, others);
    }
    FlattenSize(d.redirections, groups);
  }

  /**
   * Every line of an entry starts with the list prefix, and the lines below the first are
   * indented by one more `"= "`.
   */
  lemma {:induction false} EntryLinesIndented(d: Dialogue, prefix: string, others: DetailProducer)
    ensures AllStartWith(EntryLines(d, prefix, others), prefix)
    ensures AllStartWith(EntryLines(d, prefix, others)[1..], prefix + "= ")
    decreases d
  {
    var p := prefix + "= ";
    var groups := EntryGroups(d.redirections, p, others);
    forall i | 0 <= i < |groups| ensures AllStartWith(groups[i], p) {
      EntryLinesIndented(d.redirections[i], p, others);
    }
    FlattenAll(groups, p);
    var lines := EntryLines(d, prefix, others);
    assert lines[1..] == Flatten(groups);
    AllStartWithShorter(lines[1..], prefix, "= ");
    assert StartsWith(lines[0], prefix);
    forall j | 1 <= j < |lines| ensures StartsWith(lines[j], prefix) {
      assert lines[j] == lines[1..][j - 1];
    }
  }

  lemma {:induction false} FlattenAll(groups: seq<seq<string>>, p: string)
    requires forall i :: 0 <= i < |groups| ==> AllStartWith(groups[i], p)
    ensures AllStartWith(Flatten(groups), p)
  {
    if groups != [] {
      FlattenAll(groups[1..], p);
    }
  }

  lemma {:induction false} FlattenSize(ds: seq<Dialogue>, groups: seq<seq<string>>)
    requires |groups| == |ds|
    requires forall i :: 0 <= i < |ds| ==> |groups[i]| == Size(ds[i])
    ensures |Flatten(groups)| == SizeAll(ds)
  {
    if ds != [] {
      FlattenSize(ds[1..], groups[1..]);
    }
  }

  /** The first line of an entry in `formatQuestionAnswers`. */
  function QuestionAnswerHead(d: Dialogue, prefix: string, others: DetailProducer): string {
    var details := GetDetails(d, others);
    prefix + FormatDetails(d, details) + QuestionAnswerText(d, details)
  }

  /** What follows the detail prefix: the question type and original, then the answer type and preview. */
  function QuestionAnswerText(d: Dialogue, details: SearchDetails): string {
    details.questionType.GetOr("问题") + "：" + d.original + "，"
      + details.answerType.GetOr("回答") + "：" + FormatAnswer(d.answer)
  }

  /** `formatQuestionAnswers(argv, dialogues, prefix)` (search.ts:166-184). */
  function FormatQuestionAnswers(ds: seq<Dialogue>, prefix: string, others: DetailProducer): (r: seq<string>)
    ensures |r| == |ds|
    ensures forall i :: 0 <= i < |ds| ==>
      r[i] == JoinLines([QuestionAnswerHead(ds[i], prefix, others)] + ListLines(ds[i], prefix, others))
  {
    if ds == [] then []
    else
      [JoinLines([QuestionAnswerHead(ds[0], prefix, others)] + ListLines(ds[0], prefix, others))]
        + FormatQuestionAnswers(ds[1..], prefix, others)
  }
}
