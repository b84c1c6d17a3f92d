/** Cues as the subtitle library hands them over, the failures the entry
    points report, and the `if cleaned_line:` filter that both flat-text
    loops apply before joining. */
module Subtitles {

  /** One cue of a parsed subtitle file (the library's `SubRipItem`): its
      number, its start and end times in milliseconds, and its text, whose
      lines are separated by line breaks. The library's parser creates these
      objects; the converted-subtitle rewrite assigns `text` in place. */
  class Cue {
    var index: int
    var start: int
    var end: int
    var text: string
  }

  /** The cues of one parsed file are distinct objects. */
  ghost predicate Distinct(cues: seq<Cue>)
  {
    forall i, j :: 0 <= i < j < |cues| ==> cues[i] != cues[j]
  }

  /** The `text` of every cue, in file order. */
  function TextsOf(cues: seq<Cue>): seq<string>
    reads cues
  {
    seq(|cues|, i requires 0 <= i < |cues| reads cues => cues[i].text)
  }

  datatype Option<T> = None | Some(value: T)

  /** Why an entry point stops without producing output. */
  datatype Error =
    | FileNotFound            // the input path does not exist
    | ConverterUnavailable    // conversion was asked for but the converter did not load
    | ConversionNotRequested  // the converted-subtitle rewrite was started without conversion
    | ParseFailed             // the subtitle library could not read the file

  datatype Result<T> = Ok(value: T) | Err(error: Error)

  /** The texts that survive `if cleaned_line:`, in their original order. */
  function NonEmpty(xs: seq<string>): (r: seq<string>)
    ensures |r| <= |xs|
    ensures forall k :: 0 <= k < |r| ==> r[k] != []
  {
    if xs == [] then []
    else NonEmpty(xs[..|xs| - 1]) + (if xs[|xs| - 1] == [] then [] else [xs[|xs| - 1]])
  }

  /** The filter keeps exactly the non-empty texts, in order: each kept entry
      is the text at a position `idx[k]`, the positions increase, and every
      non-empty text's position is among them. */
  lemma {:induction false} NonEmptyKeepsOrder(xs: seq<string>) returns (idx: seq<nat>)
    ensures |idx| == |NonEmpty(xs)|
    ensures forall k :: 0 <= k < |idx| ==> idx[k] < |xs| && NonEmpty(xs)[k] == xs[idx[k]]
    ensures forall k, l :: 0 <= k < l < |idx| ==> idx[k] < idx[l]
    ensures forall j :: 0 <= j < |xs| && xs[j] != [] ==> j in idx
  {
    if xs == [] {
      idx := [];
    } else {
      var n := |xs| - 1;
      var init := xs[..n];
      var prev := NonEmptyKeepsOrder(init);
      var r := NonEmpty(init);
      if xs[n] == [] {
        idx := prev;
        assert NonEmpty(xs) == r + [];
        assert NonEmpty(xs) == r;
        forall j | 0 <= j < |xs| && xs[j] != [] ensures j in idx {
          assert j < n && init[j] == xs[j];
        }
      } else {
        idx := prev + [n];
        assert NonEmpty(xs) == r + [xs[n]];
        forall k | 0 <= k < |idx| ensures idx[k] < |xs| && NonEmpty(xs)[k] == xs[idx[k]] {
          if k < |prev| {
            assert NonEmpty(xs)[k] == r[k] == init[prev[k]];
          }
        }
        forall j | 0 <= j < |xs| && xs[j] != [] ensures j in idx {
          if j < n {
            assert init[j] == xs[j];
            assert j in prev;
          }
        }
      }
    }
  }

  /** When no text is empty, nothing is dropped. */
  lemma {:induction false} NonEmptyAllKept(xs: seq<string>)
    requires forall i :: 0 <= i < |xs| ==> xs[i] != []
    ensures NonEmpty(xs) == xs
  {
    if xs != [] {
      NonEmptyAllKept(xs[..|xs| - 1]);
      assert xs[..|xs| - 1] + [xs[|xs| - 1]] == xs;
    }
  }

  /** `f` applied to every text, in order. */
  function MapTexts(f: string -> string, texts: seq<string>): seq<string>
  {
    seq(|texts|, i requires 0 <= i < |texts| => f(texts[i]))
  }

  /** What a loop that appends `f(text)` whenever it is not empty has
      collected after seeing `texts`. */
  function Kept(f: string -> string, texts: seq<string>): seq<string>
  {
    NonEmpty(MapTexts(f, texts))
  }

  /** One more text adds its image to what is kept, unless that is empty. */
  lemma KeptSnoc(f: string -> string, texts: seq<string>, t: string)
    ensures Kept(f, texts + [t]) == Kept(f, texts) + (if f(t) == [] then [] else [f(t)])
  {
    var all := MapTexts(f, texts + [t]);
    assert all[..|texts|] == MapTexts(f, texts);
  }

  /** One pass of such a loop keeps its list equal to what is kept from the
      texts seen so far. */
  lemma KeptStep(f: string -> string, texts: seq<string>, i: nat, kept: seq<string>, line: string)
    requires i < |texts| && kept == Kept(f, texts[..i]) && line == f(texts[i])
    ensures (if line != [] then kept + [line] else kept) == Kept(f, texts[..i + 1])
  {
    assert texts[..i + 1] == texts[..i] + [texts[i]];
    KeptSnoc(f, texts[..i], texts[i]);
  }

  /** What is kept is the non-empty images in text order: entry `k` is the
      image of text `idx[k]`, the positions increase, and every text with a
      non-empty image is among them; so nothing is kept twice and never more
      than there are texts. */
  lemma KeptInOrder(f: string -> string, texts: seq<string>) returns (idx: seq<nat>)
    ensures |idx| == |Kept(f, texts)| <= |texts|
    ensures forall k :: 0 <= k < |idx| ==>
      idx[k] < |texts| && Kept(f, texts)[k] == f(texts[idx[k]]) && Kept(f, texts)[k] != []
    ensures forall k, l :: 0 <= k < l < |idx| ==> idx[k] < idx[l]
    ensures forall j :: 0 <= j < |texts| && f(texts[j]) != [] ==> j in idx
  {
    var all := MapTexts(f, texts);
    idx := NonEmptyKeepsOrder(all);
    forall j | 0 <= j < |texts| && f(texts[j]) != [] ensures j in idx {
      assert all[j] != [];
    }
  }

  /** Two functions that agree on every text keep the same. */
  lemma KeptAgree(f: string -> string, g: string -> string, texts: seq<string>)
    requires forall i :: 0 <= i < |texts| ==> f(texts[i]) == g(texts[i])
    ensures Kept(f, texts) == Kept(g, texts)
  {
    assert MapTexts(f, texts) == MapTexts(g, texts);
  }

  /** Two texts whose images are both non-empty are both kept, in order. */
  lemma KeptPair(f: string -> string, x: string, y: string)
    requires f(x) != [] && f(y) != []
    ensures Kept(f, [x, y]) == [f(x), f(y)]
  {
    assert Kept(f, []) == [];
    KeptSnoc(f, [], x);
    assert [] + [x] == [x];
    KeptSnoc(f, [x], y);
    assert [x] + [y] == [x, y];
  }
}
