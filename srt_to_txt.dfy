/** The command-line converter `srt_to_txt.py`: `srt_to_text` turns a parsed
    subtitle file into plain text, one entry per cue whose cleaned text is not
    empty, joined by line breaks or by spaces. Whether the input exists and
    what the subtitle library parsed (`None` when it failed) are inputs; the
    result is the output path and the text written there. */
module SrtToTxt {
  import opened Strings
  import opened TextClean
  import opened Paths
  import opened Subtitles
  import SrtGui

  /** `splitext(srt_filepath)[0] + ".txt"`, used when no output path is given. */
  function DefaultOutputPath(srtPath: string): string
  {
    Root(srtPath) + ".txt"
  }

  /** `processed_texts` once the loop has seen every cue. */
  function Entries(texts: seq<string>): seq<string>
  {
    Kept(CleanAndFormat, texts)
  }

  /** The separator `final_text` is joined with. */
  function Separator(segmentByLine: bool): char
  {
    if segmentByLine then '\n' else ' '
  }

  /** The loop of `srt_to_text`: clean every cue's text and keep it when it is
      not empty. */
  method CleanCues(subs: seq<Cue>) returns (processedTexts: seq<string>)
    ensures processedTexts == Entries(TextsOf(subs))
  {
    ghost var texts := TextsOf(subs);
    processedTexts := [];
    for i := 0 to |subs|
      invariant processedTexts == Entries(texts[..i])
    {
      assert subs[i].text == texts[i];
      var cleanedLine := CleanAndFormat(subs[i].text);
      KeptStep(CleanAndFormat, texts, i, processedTexts, cleanedLine);
      if cleanedLine != [] {
        processedTexts := processedTexts + [cleanedLine];
      }
    }
    assert texts[..|subs|] == texts;
  }

  /** `srt_to_text`: a missing input stops everything; otherwise the output
      path is settled (the given one, or the default) before the file is read,
      and a file the library cannot read stops there. On success the result
      is the output path and the entries joined by line breaks in line mode
      and by spaces otherwise. */
  method SrtToText(srtPath: string, srtExists: bool, outputPath: Option<string>,
                   parsed: Option<seq<Cue>>, segmentByLine: bool)
    returns (r: Result<(string, string)>)
    ensures !srtExists ==> r == Err(FileNotFound)
    ensures srtExists && parsed.None? ==> r == Err(ParseFailed)
    ensures srtExists && parsed.Some? ==>
      r == Ok((if outputPath.None? then DefaultOutputPath(srtPath) else outputPath.value,
               Join(Entries(TextsOf(parsed.value)), Separator(segmentByLine))))
  {
    if !srtExists {
      return Err(FileNotFound);
    }
    var outputFilepath: string;
    if outputPath.None? {
      var baseName := Root(srtPath);
      outputFilepath := baseName + ".txt";
    } else {
      outputFilepath := outputPath.value;
    }
    if parsed.None? {
      return Err(ParseFailed);
    }
    var processedTexts := CleanCues(parsed.value);
    var finalText: string;
    if segmentByLine {
      finalText := Join(processedTexts, '\n');
    } else {
      finalText := Join(processedTexts, ' ');
    }
    r := Ok((outputFilepath, finalText));
  }

  // ---------------------------------------------------------------------------

  /** The entries are the non-empty cleaned cue texts in cue order: entry `k`
      is the cleaned text of cue `idx[k]`, the cue positions increase, and no
      cue with a non-empty cleaned text is skipped; there are never more
      entries than cues. Each entry is non-empty, holds no line break and no
      surrounding whitespace, and has no tag of either kind left. */
  lemma EntriesInCueOrder(texts: seq<string>) returns (idx: seq<nat>)
    ensures |idx| == |Entries(texts)| <= |texts|
    ensures forall k :: 0 <= k < |idx| ==> idx[k] < |texts| && Entries(texts)[k] == CleanAndFormat(texts[idx[k]])
    ensures forall k, l :: 0 <= k < l < |idx| ==> idx[k] < idx[l]
    ensures forall j :: 0 <= j < |texts| && CleanAndFormat(texts[j]) != [] ==> j in idx
    ensures forall k :: 0 <= k < |Entries(texts)| ==> var e := Entries(texts)[k];
      e != [] && '\n' !in e && !IsSpace(e[0]) && !IsSpace(e[|e| - 1])
      && TagFree(e, '<', '>') && TagFree(e, '{', '}')
  {
    idx := KeptInOrder(CleanAndFormat, texts);
    forall k | 0 <= k < |Entries(texts)|
      ensures var e := Entries(texts)[k];
        e != [] && '\n' !in e && !IsSpace(e[0]) && !IsSpace(e[|e| - 1])
        && TagFree(e, '<', '>') && TagFree(e, '{', '}')
    {
      CleanAndFormatShape(texts[idx[k]]);
    }
  }

  /** In line mode, splitting the output at line breaks gives back exactly
      the entries (a file with no entries reads back as one empty line). */
  lemma LineModeSplitsBack(texts: seq<string>)
    ensures var e := Entries(texts);
      Split(Join(e, Separator(true)), '\n') == if e == [] then [""] else e
  {
    var e := Entries(texts);
    var idx := EntriesInCueOrder(texts);
    SplitJoin(e, '\n');
  }

  /** Otherwise the output is a single line. */
  lemma SpaceModeOneLine(texts: seq<string>)
    ensures '\n' !in Join(Entries(texts), Separator(false))
  {
    var idx := EntriesInCueOrder(texts);
    NotInJoin(Entries(texts), ' ', '\n');
  }

  /** Cue texts that are already clean and non-empty come through unchanged,
      so the line-mode output is those texts one per line. */
  lemma PlainCuesUnchanged(texts: seq<string>)
    requires forall i :: 0 <= i < |texts| ==>
      (texts[i] != [] && '<' !in texts[i] && '{' !in texts[i] && '\n' !in texts[i]
       && !IsSpace(texts[i][0]) && !IsSpace(texts[i][|texts[i]| - 1]))
    ensures Entries(texts) == texts
  {
    forall i | 0 <= i < |texts| ensures MapTexts(CleanAndFormat, texts)[i] == texts[i] {
      CleanAndFormatPlain(texts[i]);
    }
    assert MapTexts(CleanAndFormat, texts) == texts;
    NonEmptyAllKept(texts);
  }

  /** The default output path lies in the input's directory and is named
      after the stem of the input's file name, with `.txt` appended. */
  lemma DefaultOutputPathPlacement(srtPath: string)
    ensures Dirname(DefaultOutputPath(srtPath)) == Dirname(srtPath)
    ensures Basename(DefaultOutputPath(srtPath)) == Root(Basename(srtPath)) + ".txt"
  {
    DirnameOfRootPlus(srtPath, ".txt");
    BasenameOfRootPlus(srtPath, ".txt");
  }

  /** ... which is the place the GUI's text export picks when no output name
      is typed in. */
  lemma DefaultOutputPathMatchesGui(srtPath: string)
    ensures Dirname(DefaultOutputPath(srtPath)) == Dirname(SrtGui.TextOutputPath(srtPath, ""))
    ensures Basename(DefaultOutputPath(srtPath)) == Basename(SrtGui.TextOutputPath(srtPath, ""))
  {
    DefaultOutputPathPlacement(srtPath);
    SrtGui.TextOutputPathPlacement(srtPath, "");
  }

  /** The entries are those of the GUI's loop with conversion switched off;
      in line mode both scripts write the same text. */
  lemma EntriesMatchGui(texts: seq<string>, convert: string -> string)
    ensures Entries(texts) == SrtGui.Entries(texts, false, convert)
    ensures Join(Entries(texts), Separator(true)) == Join(SrtGui.Entries(texts, false, convert), '\n')
  {
    KeptAgree(CleanAndFormat, SrtGui.Processor(false, convert), texts);
  }

  /** Two cues, a plain word and an italic word, give the two words on two
      lines in line mode (`Hello` and `<i>World</i>` give `Hello`, line
      break, `World`) and separated by a space otherwise. */
  lemma PlainAndItalicCues(a: string, b: string)
    requires PlainWord(a) && PlainWord(b)
    ensures Join(Entries([a, "<i>" + b + "</i>"]), Separator(true)) == a + "\n" + b
    ensures Join(Entries([a, "<i>" + b + "</i>"]), Separator(false)) == a + " " + b
  {
    var c := "<i>" + b + "</i>";
    CleanAndFormatPlain(a);
    CleanItalicWord(b);
    KeptPair(CleanAndFormat, a, c);
    JoinPair(a, b, '\n');
    JoinPair(a, b, ' ');
  }
}
