/** The cue-text cleaner `clean_and_format_text`, which the GUI script and the
    command-line script define identically: delete every angle-bracket tag
    `<[^>]+>`, then every curly-brace tag `{[^}]+}`, replace each line break
    with a space, and strip surrounding whitespace. Each regular-expression
    substitution is modelled as the left-to-right, leftmost, non-overlapping
    scan that `re.sub` performs for that pattern. */
module TextClean {
  import opened Strings

  /** Python's `str.isspace()`, the characters `str.strip()` removes. */
  predicate IsSpace(c: char)
  {
    c == ' ' || '\t' <= c <= '\r' || '\U{1c}' <= c <= '\U{1f}'
    || c == '\U{85}' || c == '\U{a0}' || c == '\U{1680}'
    || '\U{2000}' <= c <= '\U{200a}' || c == '\U{2028}' || c == '\U{2029}'
    || c == '\U{202f}' || c == '\U{205f}' || c == '\U{3000}'
  }

  /** The pattern `open [^close]+ close` matches at the front of `s`: an opener,
      at least one character that is not the closer, then a closer. Since the
      body class excludes only the closer, the match ends at the first closer
      and its body may hold line breaks and further openers. */
  predicate TagAt(s: string, open: char, close: char)
  {
    |s| >= 2 && s[0] == open && s[1] != close && close in s[1..]
  }

  /** Length of the tag matched at the front of `s`: opener through first closer. */
  function TagLength(s: string, open: char, close: char): (n: nat)
    requires TagAt(s, open, close)
    ensures 3 <= n <= |s| && s[n - 1] == close
  {
    1 + IndexOf(s[1..], close) + 1
  }

  /** No position of `s` starts a tag: a substitution pass would find nothing. */
  predicate TagFree(s: string, open: char, close: char)
  {
    forall i :: 0 <= i < |s| ==> !TagAt(s[i..], open, close)
  }

  /** `re.sub(open + '[^' + close + ']+' + close, '', s)`: at a position where a
      tag starts, drop it and resume after its closer; otherwise keep the
      character and move on. */
  function StripTags(s: string, open: char, close: char): (r: string)
    ensures forall c :: c in r ==> c in s
    decreases |s|
  {
    if s == [] then []
    else if TagAt(s, open, close) then StripTags(s[TagLength(s, open, close)..], open, close)
    else [s[0]] + StripTags(s[1..], open, close)
  }

  /** `s.replace('\n', ' ')` */
  function ReplaceNewlines(s: string): string
  {
    seq(|s|, i requires 0 <= i < |s| => if s[i] == '\n' then ' ' else s[i])
  }

  /** `s.lstrip()` */
  function TrimStart(s: string): (r: string)
    ensures |r| <= |s| && r == s[|s| - |r|..]
    ensures forall i :: 0 <= i < |s| - |r| ==> IsSpace(s[i])
    ensures r == [] || !IsSpace(r[0])
  {
    if s != [] && IsSpace(s[0]) then TrimStart(s[1..]) else s
  }

  /** `s.rstrip()` */
  function TrimEnd(s: string): (r: string)
    ensures |r| <= |s| && r == s[..|r|]
    ensures forall i :: |r| <= i < |s| ==> IsSpace(s[i])
    ensures r == [] || !IsSpace(r[|r| - 1])
  {
    if s != [] && IsSpace(s[|s| - 1]) then TrimEnd(s[..|s| - 1]) else s
  }

  /** `s.strip()` */
  function Strip(s: string): string
  {
    TrimEnd(TrimStart(s))
  }

  /** `clean_and_format_text(text)` */
  function CleanAndFormat(text: string): string
  {
    Strip(ReplaceNewlines(StripTags(StripTags(text, '<', '>'), '{', '}')))
  }

  // ---------------------------------------------------------------------------
  // One substitution pass

  /** A tag-free string has tag-free slices. */
  lemma TagFreeSlice(s: string, a: nat, b: nat, open: char, close: char)
    requires a <= b <= |s|
    requires TagFree(s, open, close)
    ensures TagFree(s[a..b], open, close)
  {
    var t := s[a..b];
    forall i | 0 <= i < |t| ensures !TagAt(t[i..], open, close) {
      assert !TagAt(s[a + i..], open, close);
      if i + 1 < |t| && close !in s[a + i + 1..] {
        assert t[i + 1..] == s[a + i + 1..][..b - (a + i + 1)];
      }
    }
  }

  /** The pass leaves no tag behind: every opener left in the result is either
      followed directly by a closer or has no closer anywhere after it. */
  lemma {:induction false} StripTagsTagFree(s: string, open: char, close: char)
    requires open != close
    ensures TagFree(StripTags(s, open, close), open, close)
    decreases |s|
  {
    if s == [] {
    } else if TagAt(s, open, close) {
      StripTagsTagFree(s[TagLength(s, open, close)..], open, close);
    } else {
      var rest := StripTags(s[1..], open, close);
      StripTagsTagFree(s[1..], open, close);
      var r := [s[0]] + rest;
      forall i | 0 <= i < |r| ensures !TagAt(r[i..], open, close) {
        if i > 0 {
          assert r[i..] == rest[i - 1..];
        } else if s[0] == open && |s| >= 2 {
          if s[1] == close {
            assert !TagAt(s[1..], open, close);
            assert rest[0] == close;
          } else {
            assert close !in s[1..];
            assert r[1..] == rest;
          }
        }
      }
    }
  }

  /** A tag-free string goes through the pass unchanged. */
  lemma {:induction false} StripTagsOfTagFree(s: string, open: char, close: char)
    requires TagFree(s, open, close)
    ensures StripTags(s, open, close) == s
    decreases |s|
  {
    if s != [] {
      assert !TagAt(s[0..], open, close);
      TagFreeSlice(s, 1, |s|, open, close);
      StripTagsOfTagFree(s[1..], open, close);
    }
  }

  /** Running the pass twice is the same as running it once. */
  lemma StripTagsIdempotent(s: string, open: char, close: char)
    requires open != close
    ensures StripTags(StripTags(s, open, close), open, close) == StripTags(s, open, close)
  {
    StripTagsTagFree(s, open, close);
    StripTagsOfTagFree(StripTags(s, open, close), open, close);
  }

  /** A whole tag with a non-empty, closer-free body disappears, line breaks
      and all, and the scan resumes right after its closer. */
  lemma StripTagsDeletesTag(body: string, rest: string, open: char, close: char)
    requires body != [] && close !in body && open != close
    ensures StripTags([open] + body + [close] + rest, open, close) == StripTags(rest, open, close)
  {
    var s := [open] + body + [close] + rest;
    assert s[1..] == body + [close] + rest;
    assert s[1..][|body|] == close;
    assert s[1] == body[0];
    assert TagAt(s, open, close);
    assert s[1..][..|body|] == body;
    assert s[TagLength(s, open, close)..] == rest;
  }

  /** Text without an opener is copied through and the scan carries on after it. */
  lemma {:induction false} StripTagsKeepsPlain(p: string, q: string, open: char, close: char)
    requires open !in p
    ensures StripTags(p + q, open, close) == p + StripTags(q, open, close)
    decreases |p|
  {
    if p == [] {
      assert p + q == q;
    } else {
      assert (p + q)[0] == p[0];
      assert (p + q)[1..] == p[1..] + q;
      assert !TagAt(p + q, open, close);
      StripTagsKeepsPlain(p[1..], q, open, close);
      calc {
        StripTags(p + q, open, close);
        [p[0]] + StripTags(p[1..] + q, open, close);
        [p[0]] + (p[1..] + StripTags(q, open, close));
        { assert p == [p[0]] + p[1..]; }
        p + StripTags(q, open, close);
      }
    }
  }

  /** Text without an opener goes through the pass unchanged. */
  lemma StripTagsNoOpener(s: string, open: char, close: char)
    requires open !in s
    ensures StripTags(s, open, close) == s
  {
    StripTagsKeepsPlain(s, [], open, close);
    assert s + [] == s;
  }

  /** A string whose openers and closers sit where those of a tag-free string
      sit is tag-free too. */
  lemma TagFreeSamePositions(s: string, t: string, open: char, close: char)
    requires |s| == |t|
    requires forall i :: 0 <= i < |s| ==> (s[i] == open <==> t[i] == open)
    requires forall i :: 0 <= i < |s| ==> (s[i] == close <==> t[i] == close)
    requires TagFree(s, open, close)
    ensures TagFree(t, open, close)
  {
    forall i | 0 <= i < |t| ensures !TagAt(t[i..], open, close) {
      assert !TagAt(s[i..], open, close);
      if i + 1 < |t| && close !in s[i + 1..] {
        assert forall j :: i + 1 <= j < |t| ==> t[j] != close;
      }
    }
  }

  /** Deleting tags of one kind cannot create a tag of another kind, as long
      as the second kind's closer is not the first kind's opener. */
  lemma {:induction false} StripTagsKeepsOtherTagFree(s: string, open: char, close: char, open2: char, close2: char)
    requires close2 != open
    requires TagFree(s, open2, close2)
    ensures TagFree(StripTags(s, open, close), open2, close2)
    decreases |s|
  {
    if s == [] {
    } else if TagAt(s, open, close) {
      TagFreeSlice(s, TagLength(s, open, close), |s|, open2, close2);
      StripTagsKeepsOtherTagFree(s[TagLength(s, open, close)..], open, close, open2, close2);
    } else {
      var rest := StripTags(s[1..], open, close);
      TagFreeSlice(s, 1, |s|, open2, close2);
      StripTagsKeepsOtherTagFree(s[1..], open, close, open2, close2);
      var r := [s[0]] + rest;
      forall i | 0 <= i < |r| ensures !TagAt(r[i..], open2, close2) {
        if i > 0 {
          assert r[i..] == rest[i - 1..];
        } else if s[0] == open2 && |s| >= 2 {
          assert !TagAt(s[0..], open2, close2);
          if s[1] == close2 {
            assert !TagAt(s[1..], open, close);
            assert rest[0] == close2;
          } else {
            assert close2 !in s[1..];
            assert r[1..] == rest;
          }
        }
      }
    }
  }

  // ---------------------------------------------------------------------------
  // The whole cleaner

  /** `strip()` returns a slice of its argument. */
  lemma StripIsSlice(s: string) returns (a: nat)
    ensures a + |Strip(s)| <= |s| && Strip(s) == s[a..a + |Strip(s)|]
  {
    var d := TrimStart(s);
    a := |s| - |d|;
    assert Strip(s) == d[..|Strip(s)|];
  }

  /** `strip()` keeps a string tag-free. */
  lemma StripTagFree(s: string, open: char, close: char)
    requires TagFree(s, open, close)
    ensures TagFree(Strip(s), open, close)
  {
    var t := TrimStart(s);
    assert TagFree(t, open, close) by {
      TagFreeSlice(s, |s| - |t|, |s|, open, close);
      assert t == s[|s| - |t|..|s|];
    }
    var r := TrimEnd(t);
    TagFreeSlice(t, 0, |r|, open, close);
    assert r == t[0..|r|];
  }

  /** Replacing line breaks by spaces keeps a string tag-free, since neither
      is a delimiter. */
  lemma ReplaceNewlinesTagFree(s: string, open: char, close: char)
    requires open != '\n' && open != ' ' && close != '\n' && close != ' '
    requires TagFree(s, open, close)
    ensures TagFree(ReplaceNewlines(s), open, close)
  {
    TagFreeSamePositions(s, ReplaceNewlines(s), open, close);
  }

  /** Text without a line break is left alone by the replacement. */
  lemma ReplaceNewlinesNoBreak(s: string)
    requires '\n' !in s
    ensures ReplaceNewlines(s) == s
  {
  }

  /** Whitespace-only text strips to nothing. */
  lemma StripAllSpace(s: string)
    requires forall i :: 0 <= i < |s| ==> IsSpace(s[i])
    ensures Strip(s) == ""
  {
  }

  /** Text without surrounding whitespace is left alone by `strip()`. */
  lemma StripOfStripped(s: string)
    requires s == [] || (!IsSpace(s[0]) && !IsSpace(s[|s| - 1]))
    ensures Strip(s) == s
  {
  }

  /** The cleaned text has no line break. */
  lemma CleanAndFormatNoNewline(text: string)
    ensures '\n' !in CleanAndFormat(text)
  {
    var c := ReplaceNewlines(StripTags(StripTags(text, '<', '>'), '{', '}'));
    var a := StripIsSlice(c);
    assert forall i :: a <= i < a + |Strip(c)| ==> c[i] != '\n';
  }

  /** The cleaned text has no surrounding whitespace. */
  lemma CleanAndFormatStripped(text: string)
    ensures var r := CleanAndFormat(text); r == [] || (!IsSpace(r[0]) && !IsSpace(r[|r| - 1]))
  {
    var d := TrimStart(ReplaceNewlines(StripTags(StripTags(text, '<', '>'), '{', '}')));
    var r := TrimEnd(d);
    assert r == CleanAndFormat(text);
    if r != [] {
      assert r[0] == d[0];
    }
  }

  /** No angle-bracket or curly-brace tag is left in the cleaned text. */
  lemma CleanAndFormatTagFree(text: string)
    ensures TagFree(CleanAndFormat(text), '<', '>') && TagFree(CleanAndFormat(text), '{', '}')
  {
    var a := StripTags(text, '<', '>');
    var b := StripTags(a, '{', '}');
    StripTagsTagFree(text, '<', '>');
    StripTagsKeepsOtherTagFree(a, '{', '}', '<', '>');
    StripTagsTagFree(a, '{', '}');
    ReplaceNewlinesTagFree(b, '<', '>');
    ReplaceNewlinesTagFree(b, '{', '}');
    StripTagFree(ReplaceNewlines(b), '<', '>');
    StripTagFree(ReplaceNewlines(b), '{', '}');
  }

  /** The cleaned text has no line break, no surrounding whitespace, and no
      angle-bracket or curly-brace tag left in it. */
  lemma CleanAndFormatShape(text: string)
    ensures var r := CleanAndFormat(text);
      && '\n' !in r
      && (r == [] || (!IsSpace(r[0]) && !IsSpace(r[|r| - 1])))
      && TagFree(r, '<', '>') && TagFree(r, '{', '}')
  {
    CleanAndFormatNoNewline(text);
    CleanAndFormatStripped(text);
    CleanAndFormatTagFree(text);
  }

  /** Text with no tag of either kind, no line break and no surrounding
      whitespace comes back unchanged. */
  lemma CleanAndFormatOfClean(text: string)
    requires TagFree(text, '<', '>') && TagFree(text, '{', '}') && '\n' !in text
    requires text == [] || (!IsSpace(text[0]) && !IsSpace(text[|text| - 1]))
    ensures CleanAndFormat(text) == text
  {
    StripTagsOfTagFree(text, '<', '>');
    StripTagsOfTagFree(text, '{', '}');
    assert ReplaceNewlines(text) == text;
  }

  /** In particular, text with no `<`, no `{`, no line break and no surrounding
      whitespace comes back unchanged. */
  lemma CleanAndFormatPlain(text: string)
    requires '<' !in text && '{' !in text && '\n' !in text
    requires text == [] || (!IsSpace(text[0]) && !IsSpace(text[|text| - 1]))
    ensures CleanAndFormat(text) == text
  {
    StripTagsKeepsPlain(text, [], '<', '>');
    assert text + [] == text;
    StripTagsKeepsPlain(text, [], '{', '}');
    assert ReplaceNewlines(text) == text;
  }

  /** Cleaning already-cleaned text changes nothing. */
  lemma CleanAndFormatIdempotent(text: string)
    ensures CleanAndFormat(CleanAndFormat(text)) == CleanAndFormat(text)
  {
    CleanAndFormatShape(text);
    CleanAndFormatOfClean(CleanAndFormat(text));
  }

  /** A cue made only of a curly directive (such as `{\an8}`) and trailing
      whitespace cleans to the empty text, so the flat-text loops drop it. */
  lemma CleanDirectiveOnly(body: string, spaces: string)
    requires body != [] && '}' !in body && '<' !in body
    requires forall i :: 0 <= i < |spaces| ==> IsSpace(spaces[i])
    ensures CleanAndFormat("{" + body + "}" + spaces) == ""
  {
    DirectiveTagPasses(body, spaces);
    CleanAfterTagPasses("{" + body + "}" + spaces, spaces);
    ReplaceNewlinesAllSpace(spaces);
    StripAllSpace(ReplaceNewlines(spaces));
  }

  /** Both tag passes on a directive followed by whitespace. */
  lemma DirectiveTagPasses(body: string, spaces: string)
    requires body != [] && '}' !in body && '<' !in body
    requires forall i :: 0 <= i < |spaces| ==> IsSpace(spaces[i])
    ensures StripTags(StripTags("{" + body + "}" + spaces, '<', '>'), '{', '}') == spaces
  {
    var s := "{" + body + "}" + spaces;
    assert '<' !in spaces && '{' !in spaces by {
      assert !IsSpace('<') && !IsSpace('{');
    }
    assert StripTags(s, '<', '>') == s by {
      assert '<' !in s;
      StripTagsNoOpener(s, '<', '>');
    }
    assert s == ['{'] + body + ['}'] + spaces;
    StripTagsDeletesTag(body, spaces, '{', '}');
    StripTagsNoOpener(spaces, '{', '}');
  }

  /** What is left once both tag passes are known. */
  lemma CleanAfterTagPasses(s: string, t: string)
    requires StripTags(StripTags(s, '<', '>'), '{', '}') == t
    ensures CleanAndFormat(s) == Strip(ReplaceNewlines(t))
  {
  }

  /** Replacing line breaks keeps whitespace-only text whitespace-only. */
  lemma ReplaceNewlinesAllSpace(s: string)
    requires forall i :: 0 <= i < |s| ==> IsSpace(s[i])
    ensures forall i :: 0 <= i < |ReplaceNewlines(s)| ==> IsSpace(ReplaceNewlines(s)[i])
  {
  }

  /** One piece of a cue that carries no words: a whitespace character, an
      angle tag, or a curly directive. */
  datatype MarkupPiece = Blank(c: char) | AngleTag(body: string) | CurlyTag(body: string)

  /** The pieces the two passes delete or `strip()` removes: whitespace, an
      angle tag with a non-empty body free of `>`, and a curly directive with
      a non-empty body free of `}` and of `<` (an opener there would start an
      angle tag that the first pass could delete across the `}`). */
  predicate ValidPiece(p: MarkupPiece)
  {
    match p
    case Blank(c) => IsSpace(c)
    case AngleTag(b) => b != [] && '>' !in b
    case CurlyTag(b) => b != [] && '}' !in b && '<' !in b
  }

  function Render(p: MarkupPiece): string
  {
    match p
    case Blank(c) => [c]
    case AngleTag(b) => ['<'] + b + ['>']
    case CurlyTag(b) => ['{'] + b + ['}']
  }

  /** The cue text made of the pieces, in order. */
  function RenderAll(ps: seq<MarkupPiece>): string
  {
    if ps == [] then [] else Render(ps[0]) + RenderAll(ps[1..])
  }

  /** The pieces the angle-tag pass leaves. */
  function WithoutAngleTags(ps: seq<MarkupPiece>): (r: seq<MarkupPiece>)
    ensures forall p :: p in r ==> p in ps && !p.AngleTag?
  {
    if ps == [] then []
    else (if ps[0].AngleTag? then [] else [ps[0]]) + WithoutAngleTags(ps[1..])
  }

  /** A cue made only of whitespace, angle tags and curly directives, in any
      order and number (such as `{\an8}<i> </i>`), cleans to the empty text,
      so the flat-text loops drop it. */
  lemma CleanMarkupOnly(ps: seq<MarkupPiece>)
    requires forall p :: p in ps ==> ValidPiece(p)
    ensures CleanAndFormat(RenderAll(ps)) == ""
  {
    AnglePassOnPieces(ps);
    var qs := WithoutAngleTags(ps);
    CurlyPassOnPieces(qs);
    var t := StripTags(RenderAll(qs), '{', '}');
    CleanAfterTagPasses(RenderAll(ps), t);
    ReplaceNewlinesAllSpace(t);
    StripAllSpace(ReplaceNewlines(t));
  }

  /** The angle pass deletes exactly the angle tags among the pieces. */
  lemma {:induction false} AnglePassOnPieces(ps: seq<MarkupPiece>)
    requires forall p :: p in ps ==> ValidPiece(p)
    ensures StripTags(RenderAll(ps), '<', '>') == RenderAll(WithoutAngleTags(ps))
  {
    if ps != [] {
      assert ValidPiece(ps[0]);
      assert forall p :: p in ps[1..] ==> p in ps;
      AnglePassOnPieces(ps[1..]);
      var w := WithoutAngleTags(ps[1..]);
      AngleStep(ps[0], RenderAll(ps[1..]), RenderAll(w));
      if ps[0].AngleTag? {
        assert WithoutAngleTags(ps) == [] + w == w;
      } else {
        assert WithoutAngleTags(ps) == [ps[0]] + w;
        RenderAllCons(ps[0], w);
      }
    }
  }

  /** One piece in front of text whose angle pass is known. */
  lemma AngleStep(p: MarkupPiece, rest: string, stripped: string)
    requires ValidPiece(p) && StripTags(rest, '<', '>') == stripped
    ensures StripTags(Render(p) + rest, '<', '>') == if p.AngleTag? then stripped else Render(p) + stripped
  {
    match p
    case AngleTag(b) =>
      StripTagsDeletesTag(b, rest, '<', '>');
    case Blank(c) =>
      assert !IsSpace('<');
      StripTagsKeepsPlain([c], rest, '<', '>');
    case CurlyTag(b) =>
      StripTagsKeepsPlain(Render(p), rest, '<', '>');
  }

  lemma RenderAllCons(p: MarkupPiece, ps: seq<MarkupPiece>)
    ensures RenderAll([p] + ps) == Render(p) + RenderAll(ps)
  {
    assert ([p] + ps)[1..] == ps;
  }

  predicate AllSpace(s: string)
  {
    forall i :: 0 <= i < |s| ==> IsSpace(s[i])
  }

  /** The curly pass then deletes the directives and leaves the whitespace. */
  lemma {:induction false} CurlyPassOnPieces(ps: seq<MarkupPiece>)
    requires forall p :: p in ps ==> ValidPiece(p) && !p.AngleTag?
    ensures AllSpace(StripTags(RenderAll(ps), '{', '}'))
  {
    if ps != [] {
      assert ValidPiece(ps[0]) && !ps[0].AngleTag?;
      assert forall p :: p in ps[1..] ==> p in ps;
      CurlyPassOnPieces(ps[1..]);
      var rest := RenderAll(ps[1..]);
      CurlyStep(ps[0], rest, StripTags(rest, '{', '}'));
    }
  }

  /** One piece in front of text whose curly pass leaves only whitespace. */
  lemma CurlyStep(p: MarkupPiece, rest: string, stripped: string)
    requires ValidPiece(p) && !p.AngleTag?
    requires StripTags(rest, '{', '}') == stripped
    requires AllSpace(stripped)
    ensures AllSpace(StripTags(Render(p) + rest, '{', '}'))
  {
    match p
    case CurlyTag(b) =>
      StripTagsDeletesTag(b, rest, '{', '}');
    case Blank(c) =>
      assert !IsSpace('{');
      StripTagsKeepsPlain([c], rest, '{', '}');
      assert forall i :: 0 <= i < |[c] + stripped| ==> ([c] + stripped)[i] == if i == 0 then c else stripped[i - 1];
  }

  /** Why a directive body may not hold `<`: in `{<}<x>` (here `y` is `<x`)
      the first pass finds the angle tag `<}<x>`, deleting the directive's
      closer with it, and leaves `{`. */
  lemma OpenerInDirective(y: string)
    requires '>' !in y
    ensures CleanAndFormat("{<}" + y + ">") == "{"
  {
    var s := "{<}" + y + ">";
    var tag := ['<'] + ("}" + y) + ['>'] + [];
    assert s == ['{'] + tag;
    StripTagsDeletesTag("}" + y, [], '<', '>');
    StripTagsKeepsPlain(['{'], tag, '<', '>');
    assert TagFree("{", '{', '}');
    CleanAfterAnglePass(s, "{");
  }

  /** A word that the cleaner leaves alone: non-empty, no opener, no line
      break, no surrounding whitespace. */
  predicate PlainWord(w: string)
  {
    w != [] && '<' !in w && '{' !in w && '\n' !in w && !IsSpace(w[0]) && !IsSpace(w[|w| - 1])
  }

  /** Italic markup around a two-line cue: the tags go and the line break
      becomes a space, so `<i>Hello\nWorld</i>` cleans to `Hello World`. */
  lemma CleanItalicTwoLines(a: string, b: string)
    requires PlainWord(a) && PlainWord(b)
    ensures CleanAndFormat("<i>" + (a + "\n" + b) + "</i>") == a + " " + b
  {
    var lines := a + "\n" + b;
    var joined := a + " " + b;
    assert '<' !in lines && '{' !in lines by {
      assert '<' !in a && '<' !in b && '{' !in a && '{' !in b;
    }
    assert joined[0] == a[0] && joined[|joined| - 1] == b[|b| - 1];
    LineBreakToSpace(a, b);
    CleanItalic(lines, joined);
  }

  /** Text in italic tags cleans to the text with its line breaks made
      spaces, when it holds no opener and no surrounding whitespace. */
  lemma CleanItalic(lines: string, out: string)
    requires '<' !in lines && '{' !in lines
    requires ReplaceNewlines(lines) == out
    requires out == [] || (!IsSpace(out[0]) && !IsSpace(out[|out| - 1]))
    ensures CleanAndFormat("<i>" + lines + "</i>") == out
  {
    ItalicTagPasses(lines);
    CleanAfterTagPasses("<i>" + lines + "</i>", lines);
    StripOfStripped(out);
  }

  /** Both tag passes on text wrapped in italic tags. */
  lemma ItalicTagPasses(lines: string)
    requires '<' !in lines && '{' !in lines
    ensures StripTags(StripTags("<i>" + lines + "</i>", '<', '>'), '{', '}') == lines
  {
    var closing := "</i>";
    var s := "<i>" + lines + "</i>";
    calc {
      StripTags(s, '<', '>');
      { assert s == ['<'] + "i" + ['>'] + (lines + closing);
        StripTagsDeletesTag("i", lines + closing, '<', '>'); }
      StripTags(lines + closing, '<', '>');
      { StripTagsKeepsPlain(lines, closing, '<', '>'); }
      lines + StripTags(closing, '<', '>');
      { assert closing == ['<'] + "/i" + ['>'] + [];
        StripTagsDeletesTag("/i", [], '<', '>'); }
      lines + [];
      lines;
    }
    StripTagsNoOpener(lines, '{', '}');
  }

  /** A plain word in italic tags cleans to the word. */
  lemma CleanItalicWord(w: string)
    requires PlainWord(w)
    ensures CleanAndFormat("<i>" + w + "</i>") == w
  {
    ReplaceNewlinesNoBreak(w);
    CleanItalic(w, w);
  }

  /** The line break between two words becomes a space. */
  lemma LineBreakToSpace(a: string, b: string)
    requires '\n' !in a && '\n' !in b
    ensures ReplaceNewlines(a + "\n" + b) == a + " " + b
  {
    var lines := a + "\n" + b;
    var joined := a + " " + b;
    forall i | 0 <= i < |lines| ensures ReplaceNewlines(lines)[i] == joined[i] {
      if i < |a| {
        assert lines[i] == a[i];
      } else if i > |a| {
        assert lines[i] == b[i - |a| - 1];
      }
    }
  }

  /** Angle tags go first: an angle tag inside curly braces, as in `{<b>}`,
      is removed and leaves an empty-bodied `{}`, which the curly pass does
      not match. */
  lemma CleanAngleBeforeCurly(body: string)
    requires body != [] && '>' !in body
    ensures CleanAndFormat("{<" + body + ">}") == "{}"
  {
    var braces := "{}";
    AngleInsideBraces(body);
    EmptyBracesTagFree();
    CleanAfterAnglePass("{<" + body + ">}", braces);
  }

  /** When the angle pass already leaves clean text, that is the result. */
  lemma CleanAfterAnglePass(s: string, t: string)
    requires StripTags(s, '<', '>') == t
    requires TagFree(t, '{', '}') && '\n' !in t && (t == [] || (!IsSpace(t[0]) && !IsSpace(t[|t| - 1])))
    ensures CleanAndFormat(s) == t
  {
    StripTagsOfTagFree(t, '{', '}');
    ReplaceNewlinesNoBreak(t);
    StripOfStripped(t);
  }

  /** The angle pass on `{<body>}`. */
  lemma AngleInsideBraces(body: string)
    requires body != [] && '>' !in body
    ensures StripTags("{<" + body + ">}", '<', '>') == "{}"
  {
    var rest := ['<'] + body + ['>'] + "}";
    assert "{<" + body + ">}" == "{" + rest;
    StripTagsKeepsPlain("{", rest, '<', '>');
    StripTagsDeletesTag(body, "}", '<', '>');
    StripTagsNoOpener("}", '<', '>');
  }

  /** `<>` and `{}` hold no tag of either kind. */
  lemma EmptyBracesTagFree()
    ensures TagFree("<>", '<', '>') && TagFree("<>", '{', '}')
    ensures TagFree("{}", '<', '>') && TagFree("{}", '{', '}')
  {
    assert "<>"[1..] == ">";
    assert "{}"[1..] == "}";
  }

  /** Empty-bodied `<>` and `{}` are not tags and are kept. */
  lemma CleanKeepsEmptyTags(s: string)
    requires s == "<>" || s == "{}"
    ensures CleanAndFormat(s) == s
  {
    assert TagFree(s, '<', '>') && TagFree(s, '{', '}') by {
      EmptyBracesTagFree();
    }
    CleanAndFormatOfClean(s);
  }

  // ---------------------------------------------------------------------------
  // Character-wise conversion commutes with cleaning

  /** The characters the cleaner reacts to: tag delimiters and whitespace. */
  predicate IsMarkup(c: char)
  {
    c == '<' || c == '>' || c == '{' || c == '}' || IsSpace(c)
  }

  /** A character-for-character conversion that leaves every markup character
      alone and never turns another character into one. */
  ghost predicate KeepsMarkup(f: char -> char)
  {
    forall c :: (IsMarkup(c) ==> f(c) == c) && (!IsMarkup(c) ==> !IsMarkup(f(c)))
  }

  /** Applies `f` to every character of `s`. */
  function MapChars(f: char -> char, s: string): string
  {
    seq(|s|, i requires 0 <= i < |s| => f(s[i]))
  }

  lemma IndexOfMapChars(f: char -> char, s: string, c: char)
    requires c in s
    requires forall x :: f(x) == c <==> x == c
    ensures c in MapChars(f, s) && IndexOf(MapChars(f, s), c) == IndexOf(s, c)
  {
    var t := MapChars(f, s);
    var k := IndexOf(s, c);
    assert t[k] == c;
    var k' := IndexOf(t, c);
  }

  lemma {:induction false} StripTagsMapChars(f: char -> char, s: string, open: char, close: char)
    requires forall x :: f(x) == open <==> x == open
    requires forall x :: f(x) == close <==> x == close
    ensures StripTags(MapChars(f, s), open, close) == MapChars(f, StripTags(s, open, close))
    decreases |s|
  {
    if s != [] {
      TagAtMapChars(f, s, open, close);
      if TagAt(s, open, close) {
        var n := TagLength(s, open, close);
        MapCharsDrop(f, s, n);
        StripTagsMapChars(f, s[n..], open, close);
      } else {
        MapCharsDrop(f, s, 1);
        StripTagsMapChars(f, s[1..], open, close);
        MapCharsCons(f, s[0], StripTags(s[1..], open, close));
      }
    }
  }

  lemma MapCharsDrop(f: char -> char, s: string, n: nat)
    requires n <= |s|
    ensures MapChars(f, s)[n..] == MapChars(f, s[n..])
  {
  }

  lemma MapCharsCons(f: char -> char, c: char, s: string)
    ensures MapChars(f, [c] + s) == [f(c)] + MapChars(f, s)
  {
  }

  /** Such a conversion finds a tag exactly where the original has one, of
      the same length. */
  lemma TagAtMapChars(f: char -> char, s: string, open: char, close: char)
    requires forall x :: f(x) == open <==> x == open
    requires forall x :: f(x) == close <==> x == close
    ensures TagAt(MapChars(f, s), open, close) == TagAt(s, open, close)
    ensures TagAt(s, open, close) ==> TagLength(MapChars(f, s), open, close) == TagLength(s, open, close)
  {
    var t := MapChars(f, s);
    if |s| >= 2 {
      assert t[1..] == MapChars(f, s[1..]);
      if close in s[1..] {
        IndexOfMapChars(f, s[1..], close);
      } else {
        assert close !in t[1..];
      }
    }
  }

  lemma {:induction false} TrimStartMapChars(f: char -> char, s: string)
    requires forall x :: IsSpace(f(x)) <==> IsSpace(x)
    ensures TrimStart(MapChars(f, s)) == MapChars(f, TrimStart(s))
    decreases |s|
  {
    if s != [] {
      assert MapChars(f, s)[1..] == MapChars(f, s[1..]);
      TrimStartMapChars(f, s[1..]);
    }
  }

  lemma {:induction false} TrimEndMapChars(f: char -> char, s: string)
    requires forall x :: IsSpace(f(x)) <==> IsSpace(x)
    ensures TrimEnd(MapChars(f, s)) == MapChars(f, TrimEnd(s))
    decreases |s|
  {
    if s != [] {
      assert MapChars(f, s)[..|s| - 1] == MapChars(f, s[..|s| - 1]);
      TrimEndMapChars(f, s[..|s| - 1]);
    }
  }

  /** Converting character by character and then cleaning gives the same text
      as cleaning and then converting, for any conversion that keeps markup. */
  lemma CleanAndFormatMapChars(f: char -> char, text: string)
    requires KeepsMarkup(f)
    ensures CleanAndFormat(MapChars(f, text)) == MapChars(f, CleanAndFormat(text))
  {
    forall x ensures (f(x) == '<' <==> x == '<') && (f(x) == '>' <==> x == '>')
      && (f(x) == '{' <==> x == '{') && (f(x) == '}' <==> x == '}')
      && (f(x) == '\n' <==> x == '\n') && (IsSpace(f(x)) <==> IsSpace(x))
    {
      assert IsMarkup(x) ==> f(x) == x;
      assert !IsMarkup(x) ==> !IsMarkup(f(x));
    }
    var a := StripTags(text, '<', '>');
    StripTagsMapChars(f, text, '<', '>');
    var b := StripTags(a, '{', '}');
    StripTagsMapChars(f, a, '{', '}');
    assert f(' ') == ' ';
    assert ReplaceNewlines(MapChars(f, b)) == MapChars(f, ReplaceNewlines(b));
    TrimStartMapChars(f, ReplaceNewlines(b));
    TrimEndMapChars(f, TrimStart(ReplaceNewlines(b)));
  }
}
