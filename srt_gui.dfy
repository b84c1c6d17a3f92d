/** The processing behind the GUI script's three buttons, without the window:
    `process_and_convert`, the output-path part of `srt_to_text`, and
    `srt_to_traditional_srt`. Whether the input file exists, whether the
    converter library loaded, and what the subtitle library parsed are
    inputs (`None` for a file it could not read); the converter itself is a
    function parameter. */
module SrtGui {
  import opened Strings
  import opened TextClean
  import opened Paths
  import opened Subtitles

  /** What one pass of the `process_and_convert` loop makes of a cue's text:
      the cleaned text, converted only when conversion is on and the cleaned
      text is not empty. */
  function ProcessLine(text: string, convertToTrad: bool, convert: string -> string): string
  {
    var cleaned := CleanAndFormat(text);
    if convertToTrad && cleaned != [] then convert(cleaned) else cleaned
  }

  /** The loop's work on one cue, as a function of its text. */
  function Processor(convertToTrad: bool, convert: string -> string): string -> string
  {
    text => ProcessLine(text, convertToTrad, convert)
  }

  /** `processed_texts` once the loop has seen every cue. */
  function Entries(texts: seq<string>, convertToTrad: bool, convert: string -> string): seq<string>
  {
    Kept(Processor(convertToTrad, convert), texts)
  }

  /** `process_and_convert`: the guards in the order the script checks them,
      then the loop, then the join. Both branches of `segment_by_line` join
      with a line break, so the flag has no effect on the result. */
  method ProcessAndConvert(srtExists: bool, converterAvailable: bool, parsed: Option<seq<Cue>>,
                           convertToTrad: bool, segmentByLine: bool, convert: string -> string)
    returns (r: Result<string>)
    ensures !srtExists ==> r == Err(FileNotFound)
    ensures srtExists && convertToTrad && !converterAvailable ==> r == Err(ConverterUnavailable)
    ensures srtExists && !(convertToTrad && !converterAvailable) && parsed.None? ==> r == Err(ParseFailed)
    ensures srtExists && !(convertToTrad && !converterAvailable) && parsed.Some? ==>
      r == Ok(Join(Entries(TextsOf(parsed.value), convertToTrad, convert), '\n'))
  {
    if !srtExists {
      return Err(FileNotFound);
    }
    if convertToTrad && !converterAvailable {
      return Err(ConverterUnavailable);
    }
    if parsed.None? {
      return Err(ParseFailed);
    }
    var processedTexts := ProcessCues(parsed.value, convertToTrad, convert);
    if segmentByLine {
      r := Ok(Join(processedTexts, '\n'));
    } else {
      r := Ok(Join(processedTexts, '\n'));
    }
  }

  /** The loop of `process_and_convert`: clean each cue's text, convert it
      when asked and it is not empty, and keep it when it is not empty. */
  method ProcessCues(subs: seq<Cue>, convertToTrad: bool, convert: string -> string)
    returns (processedTexts: seq<string>)
    ensures processedTexts == Entries(TextsOf(subs), convertToTrad, convert)
  {
    ghost var texts := TextsOf(subs);
    processedTexts := [];
    for i := 0 to |subs|
      invariant processedTexts == Entries(texts[..i], convertToTrad, convert)
    {
      assert subs[i].text == texts[i];
      var cleanedLine := CleanAndFormat(subs[i].text);
      if convertToTrad && cleanedLine != [] {
        cleanedLine := convert(cleanedLine);
      }
      KeptStep(Processor(convertToTrad, convert), texts, i, processedTexts, cleanedLine);
      if cleanedLine != [] {
        processedTexts := processedTexts + [cleanedLine];
      }
    }
    assert texts[..|subs|] == texts;
  }

  /** The entries are the non-empty processed cue texts in cue order: each is
      non-empty and is the processed text of the cue at `idx[k]`, the cue
      positions increase, and every cue whose processed text is non-empty is
      among them; so there are never more entries than cues. */
  lemma EntriesInCueOrder(texts: seq<string>, convertToTrad: bool, convert: string -> string)
    returns (idx: seq<nat>)
    ensures |idx| == |Entries(texts, convertToTrad, convert)| <= |texts|
    ensures forall k :: 0 <= k < |idx| ==>
      idx[k] < |texts| && Entries(texts, convertToTrad, convert)[k] == ProcessLine(texts[idx[k]], convertToTrad, convert)
      && Entries(texts, convertToTrad, convert)[k] != []
    ensures forall k, l :: 0 <= k < l < |idx| ==> idx[k] < idx[l]
    ensures forall j :: 0 <= j < |texts| && ProcessLine(texts[j], convertToTrad, convert) != [] ==> j in idx
  {
    var f := Processor(convertToTrad, convert);
    idx := KeptInOrder(f, texts);
    forall j | 0 <= j < |texts| ensures f(texts[j]) == ProcessLine(texts[j], convertToTrad, convert) {
    }
  }

  /** With conversion off the converter is never applied: each entry is the
      cleaned text of a cue, with no line break and no surrounding whitespace,
      whatever converter is passed. */
  lemma EntriesUnconverted(texts: seq<string>, convert: string -> string, other: string -> string)
    ensures Entries(texts, false, convert) == Entries(texts, false, other)
    ensures forall k :: 0 <= k < |Entries(texts, false, convert)| ==>
      var e := Entries(texts, false, convert)[k];
      '\n' !in e && !IsSpace(e[0]) && !IsSpace(e[|e| - 1])
  {
    KeptAgree(Processor(false, convert), Processor(false, other), texts);
    var es := Entries(texts, false, convert);
    var idx := EntriesInCueOrder(texts, false, convert);
    forall k | 0 <= k < |es|
      ensures '\n' !in es[k] && !IsSpace(es[k][0]) && !IsSpace(es[k][|es[k]| - 1])
    {
      CleanedShape(es[k], texts[idx[k]]);
    }
  }

  /** A non-empty cleaned text has no line break and no surrounding whitespace. */
  lemma CleanedShape(e: string, t: string)
    requires e == CleanAndFormat(t) && e != []
    ensures '\n' !in e && !IsSpace(e[0]) && !IsSpace(e[|e| - 1])
  {
    CleanAndFormatShape(t);
  }

  // ---------------------------------------------------------------------------
  // Writing the flat text

  /** The path `srt_to_text` writes to: in the input's directory, named after
      the stem of the requested name, or of the input's file name when none
      is given, with `.txt` appended. */
  function TextOutputPath(srtPath: string, outputName: string): string
  {
    var outputDir := Dirname(srtPath);
    if outputName != [] then PathJoin(outputDir, Root(outputName) + ".txt")
    else PathJoin(outputDir, Root(Basename(srtPath)) + ".txt")
  }

  /** The output always ends in `.txt`. */
  lemma TextOutputPathSuffix(srtPath: string, outputName: string)
    ensures var r := TextOutputPath(srtPath, outputName); |r| >= 4 && r[|r| - 4..] == ".txt"
  {
    var name := if outputName != [] then Root(outputName) else Root(Basename(srtPath));
    JoinTxtSuffix(Dirname(srtPath), name);
  }

  lemma JoinTxtSuffix(dir: string, name: string)
    ensures var r := PathJoin(dir, name + ".txt"); |r| >= 4 && r[|r| - 4..] == ".txt"
  {
    var file := name + ".txt";
    PathJoinEndsWith(dir, file);
    var r := PathJoin(dir, file);
    assert r[|r| - 4..] == r[|r| - |file|..][|file| - 4..];
  }

  /** With no name given the output sits in the input's directory under the
      input's stem; with a name that holds no `/`, in the input's directory
      under that name's stem. */
  lemma TextOutputPathPlacement(srtPath: string, outputName: string)
    requires '/' !in outputName
    ensures Dirname(TextOutputPath(srtPath, outputName)) == Dirname(srtPath)
    ensures Basename(TextOutputPath(srtPath, outputName))
      == (if outputName == [] then Root(Basename(srtPath)) else Root(outputName)) + ".txt"
  {
    var stemOf := if outputName != [] then outputName else Basename(srtPath);
    BasenameSlashFree(srtPath);
    RootSlashFree(stemOf);
    var file := Root(stemOf) + ".txt";
    assert '/' !in file;
    JoinIntoDirname(srtPath, file);
  }

  /** Whatever name is typed in, the output file is named after the stem of
      that name's last component, or of the input's file name when none is
      given, with `.txt` appended. */
  lemma TextOutputPathName(srtPath: string, outputName: string)
    ensures Basename(TextOutputPath(srtPath, outputName))
      == (if outputName == [] then Root(Basename(srtPath)) else Root(Basename(outputName))) + ".txt"
  {
    var stem := if outputName != [] then Root(outputName) else Root(Basename(srtPath));
    BasenameOfJoin(Dirname(srtPath), stem + ".txt");
    if outputName != [] {
      BasenameOfRootPlus(outputName, ".txt");
    } else {
      BasenameSlashFree(srtPath);
      RootSlashFree(Basename(srtPath));
      assert '/' !in stem + ".txt";
      ComponentStartAt([], stem + ".txt");
      assert [] + (stem + ".txt") == stem + ".txt";
    }
  }

  /** An absolute name replaces the input's directory altogether. */
  lemma TextOutputPathAbsolute(srtPath: string, outputName: string)
    requires outputName != [] && outputName[0] == '/'
    ensures TextOutputPath(srtPath, outputName) == Root(outputName) + ".txt"
  {
    var r := Root(outputName);
    assert ComponentStart(outputName) >= 1;
    assert (r + ".txt")[0] == '/';
  }

  /** `srt_to_text`: the text of `process_and_convert` and the path it is
      written to, or the reason nothing is written. */
  method SrtToText(srtPath: string, srtExists: bool, converterAvailable: bool, parsed: Option<seq<Cue>>,
                   segmentByLine: bool, convertToTrad: bool, outputName: string, convert: string -> string)
    returns (r: Result<(string, string)>)
    ensures !srtExists ==> r == Err(FileNotFound)
    ensures srtExists && convertToTrad && !converterAvailable ==> r == Err(ConverterUnavailable)
    ensures srtExists && !(convertToTrad && !converterAvailable) && parsed.None? ==> r == Err(ParseFailed)
    ensures srtExists && !(convertToTrad && !converterAvailable) && parsed.Some? ==>
      r == Ok((TextOutputPath(srtPath, outputName),
               Join(Entries(TextsOf(parsed.value), convertToTrad, convert), '\n')))
  {
    var finalText := ProcessAndConvert(srtExists, converterAvailable, parsed, convertToTrad, segmentByLine, convert);
    if finalText.Err? {
      return Err(finalText.error);
    }
    var outputFilepath := TextOutputPath(srtPath, outputName);
    r := Ok((outputFilepath, finalText.value));
  }

  // ---------------------------------------------------------------------------
  // The converted-subtitle rewrite

  /** `base + "_T" + ext` from `splitext(srt_filepath)`. */
  function TraditionalPath(srtPath: string): string
  {
    Root(srtPath) + "_T" + Ext(srtPath)
  }

  /** Inserting `_T` where a component's extension starts leaves that
      extension where it was, two characters later. */
  lemma ComponentExtAfterInsert(b: string, e: nat)
    requires e == ComponentExtStart(b)
    ensures ComponentExtStart(b[..e] + "_T" + b[e..]) == e + 2
  {
    var stem := b[..e] + "_T";
    var ext := b[e..];
    assert b[..e] + "_T" + b[e..] == stem + ext;
    var dot := LastIndexOf(b, '.');
    if e < |b| {
      assert ext[0] == '.';
      assert forall j :: 0 <= j < |ext| - 1 ==> ext[1..][j] == b[e + 1 + j];
      LastDotIn(stem, ext, 0);
      assert (stem + ext)[..e + 2][e + 1] == 'T';
    } else {
      assert stem + ext == b + "_T";
      LastDotBefore(b, "_T");
      if dot >= 0 {
        assert (b + "_T")[..dot] == b[..dot];
      }
    }
  }

  /** Inserting `_T` into a slash-free component keeps it slash-free. */
  lemma InsertSlashFree(b: string, e: nat)
    requires '/' !in b && e <= |b|
    ensures '/' !in b[..e] + "_T" + b[e..]
  {
    assert '/' !in b[..e] && '/' !in b[e..];
    assert '/' !in "_T";
  }

  /** The new file keeps the input's extension, and its stem is the input's
      with `_T` appended. */
  lemma TraditionalPathSplits(srtPath: string)
    ensures SplitExt(TraditionalPath(srtPath)) == (Root(srtPath) + "_T", Ext(srtPath))
  {
    var q := TraditionalPath(srtPath);
    var d := ExtStart(srtPath);
    TraditionalExtStart(srtPath);
    assert |Root(srtPath)| == d;
    assert q[..d + 2] == Root(srtPath) + "_T";
    assert q[d + 2..] == Ext(srtPath);
  }

  /** The extension of the new name starts two characters later. */
  lemma TraditionalExtStart(srtPath: string)
    ensures ExtStart(TraditionalPath(srtPath)) == ExtStart(srtPath) + 2
  {
    var k := ComponentStart(srtPath);
    var b := Basename(srtPath);
    var e := ExtStart(srtPath) - k;
    var c := b[..e] + "_T" + b[e..];
    TraditionalPathShape(srtPath);
    assert '/' !in c by {
      BasenameSlashFree(srtPath);
      InsertSlashFree(b, e);
    }
    ComponentExtAfterInsert(b, e);
    ExtStartAt(srtPath[..k], c);
  }

  /** The new name is the input's directory part followed by its last
      component with `_T` inserted where the extension starts. */
  lemma TraditionalPathShape(p: string)
    ensures var k := ComponentStart(p); var b := Basename(p); var e := ExtStart(p) - k;
      TraditionalPath(p) == p[..k] + (b[..e] + "_T" + b[e..])
  {
    InsertAt(p, ComponentStart(p), ExtStart(p), "_T");
  }

  /** Inserting text at `d` seen from a split at an earlier `k`. */
  lemma InsertAt(p: string, k: nat, d: nat, ins: string)
    requires k <= d <= |p|
    ensures p[..d] + ins + p[d..] == p[..k] + (p[k..][..d - k] + ins + p[k..][d - k..])
  {
    assert p[k..][..d - k] == p[k..d];
    assert p[k..][d - k..] == p[d..];
    assert p[..d] == p[..k] + p[k..d];
  }

  /** ... it lies in the input's directory, and it never overwrites the input. */
  lemma TraditionalPathBeside(srtPath: string)
    ensures Dirname(TraditionalPath(srtPath)) == Dirname(srtPath)
    ensures TraditionalPath(srtPath) != srtPath
  {
    SplitExtRejoin(srtPath);
    SplitExtShape(srtPath);
    var tail := "_T" + Ext(srtPath);
    assert TraditionalPath(srtPath) == Root(srtPath) + tail;
    assert '/' !in tail;
    DirnameOfRootPlus(srtPath, tail);
  }

  /** Every text passed through the converter, in cue order. */
  function ConvertAll(texts: seq<string>, convert: string -> string): (r: seq<string>)
  {
    seq(|texts|, i requires 0 <= i < |texts| => convert(texts[i]))
  }

  /** `srt_to_traditional_srt`: the three guards in the script's order, then
      every cue's text replaced in place by its conversion (markup and all),
      leaving number and times alone; the result is the path the file is
      saved to. Nothing is changed when it stops early. */
  method SrtToTraditionalSrt(srtPath: string, srtExists: bool, convertToTrad: bool, converterAvailable: bool,
                             parsed: Option<seq<Cue>>, convert: string -> string)
    returns (r: Result<string>)
    requires parsed.Some? ==> Distinct(parsed.value)
    modifies if parsed.Some? then parsed.value else []
    ensures !srtExists ==> r == Err(FileNotFound)
    ensures srtExists && !convertToTrad ==> r == Err(ConversionNotRequested)
    ensures srtExists && convertToTrad && !converterAvailable ==> r == Err(ConverterUnavailable)
    ensures srtExists && convertToTrad && converterAvailable && parsed.None? ==> r == Err(ParseFailed)
    ensures srtExists && convertToTrad && converterAvailable && parsed.Some? ==> r == Ok(TraditionalPath(srtPath))
    ensures parsed.Some? ==> var subs := parsed.value;
      && (forall i :: 0 <= i < |subs| ==>
            subs[i].index == old(subs[i].index) && subs[i].start == old(subs[i].start)
            && subs[i].end == old(subs[i].end))
      && TextsOf(subs) == if r.Ok? then ConvertAll(old(TextsOf(subs)), convert) else old(TextsOf(subs))
  {
    if !srtExists {
      return Err(FileNotFound);
    }
    if !convertToTrad {
      return Err(ConversionNotRequested);
    }
    if !converterAvailable {
      return Err(ConverterUnavailable);
    }
    if parsed.None? {
      return Err(ParseFailed);
    }
    var subs := parsed.value;
    for i := 0 to |subs|
      invariant forall j :: 0 <= j < i ==> subs[j].text == convert(old(subs[j].text))
      invariant forall j :: i <= j < |subs| ==> subs[j].text == old(subs[j].text)
      invariant forall j :: 0 <= j < |subs| ==>
        subs[j].index == old(subs[j].index) && subs[j].start == old(subs[j].start) && subs[j].end == old(subs[j].end)
    {
      var originalText := subs[i].text;
      var convertedText := convert(originalText);
      subs[i].text := convertedText;
    }
    var outputFilepath := Root(srtPath) + "_T" + Ext(srtPath);
    r := Ok(outputFilepath);
  }

  /** For a character-wise converter that keeps markup, cleaning the
      converted text without converting gives what the flat-text loop gives
      when it converts. */
  lemma ProcessLineConverted(t: string, f: char -> char, convert: string -> string)
    requires KeepsMarkup(f)
    requires forall s :: convert(s) == MapChars(f, s)
    ensures ProcessLine(convert(t), false, convert) == ProcessLine(t, true, convert)
  {
    var cleaned := CleanAndFormat(t);
    calc {
      ProcessLine(convert(t), false, convert);
      CleanAndFormat(MapChars(f, t));
      { CleanAndFormatMapChars(f, t); }
      MapChars(f, cleaned);
      { assert cleaned == [] ==> MapChars(f, cleaned) == cleaned; }
      if cleaned != [] then convert(cleaned) else cleaned;
    }
  }

  /** Flattening the rewritten subtitle without conversion gives the same
      entries as flattening the original with conversion, for a converter
      that works character by character and leaves markup characters alone. */
  lemma ConvertedSubtitleFlattens(texts: seq<string>, f: char -> char, convert: string -> string)
    requires KeepsMarkup(f)
    requires forall s :: convert(s) == MapChars(f, s)
    ensures Entries(ConvertAll(texts, convert), false, convert) == Entries(texts, true, convert)
  {
    var converted := ConvertAll(texts, convert);
    var lhs := MapTexts(Processor(false, convert), converted);
    var rhs := MapTexts(Processor(true, convert), texts);
    forall i | 0 <= i < |texts| ensures lhs[i] == rhs[i] {
      ProcessLineConverted(texts[i], f, convert);
    }
    assert lhs == rhs;
  }
}
