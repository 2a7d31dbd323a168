/** `easy_synthesize` and `SynthesizeOptions::default`
    (crates/sbv2_core/src/tts.rs). Text analysis and the VITS2 session are
    function parameters: `parse` stands for `parse_text` and `synth` for the
    session run with the speaker id, SDP ratio, length scale and the fixed
    noise scales 0.677 and 0.8 bound in. Audio of shape (1, 1, n) is its
    sequence of `n` samples, over the reals. */
module Synthesis {
  import opened Wrappers
  import opened Seqs
  import opened ModelHolder
  import Features
  import Style

  datatype SynthesizeOptions = SynthesizeOptions(sdpRatio: real, lengthScale: real, styleWeight: real, splitSentences: bool)

  /** `SynthesizeOptions::default()`. */
  const DefaultOptions: SynthesizeOptions := SynthesizeOptions(0.0, 1.0, 1.0, true)

  /** The silence put between two segments: half a second at 44.1 kHz. */
  const GapSamples: nat := 22050

  /** One block of the output: a segment's speech, or a silence. */
  datatype Piece = Speech(text: string) | Gap

  /** The split loop from segment `i` on: an empty segment is skipped; a
      spoken segment is followed by a silence unless it is the last segment
      of the split, so a trailing `\n` leaves a trailing silence. */
  function Schedule(texts: seq<string>, i: nat): (r: seq<Piece>)
    requires i <= |texts|
    decreases |texts| - i
  {
    if i == |texts| then []
    else
      var head := if texts[i] == [] then [] else [Speech(texts[i])] + (if i != |texts| - 1 then [Gap] else []);
      head + Schedule(texts, i + 1)
  }

  /** The non-empty segments, in order. */
  function NonEmpty(texts: seq<string>): seq<string>
  {
    if texts == [] then [] else (if texts[0] == [] then [] else [texts[0]]) + NonEmpty(texts[1..])
  }

  /** The texts spoken by a schedule, in order. */
  function Spoken(pieces: seq<Piece>): seq<string>
  {
    if pieces == [] then [] else (if pieces[0].Speech? then [pieces[0].text] else []) + Spoken(pieces[1..])
  }

  function GapCount(pieces: seq<Piece>): nat
  {
    if pieces == [] then 0 else (if pieces[0].Gap? then 1 else 0) + GapCount(pieces[1..])
  }

  lemma {:induction false} SpokenAppend(a: seq<Piece>, b: seq<Piece>)
    ensures Spoken(a + b) == Spoken(a) + Spoken(b)
    ensures GapCount(a + b) == GapCount(a) + GapCount(b)
  {
    if a == [] {
      assert a + b == b;
    } else {
      var ab := a + b;
      assert ab[0] == a[0] && ab[1..] == a[1..] + b;
      SpokenAppend(a[1..], b);
      var said: seq<string> := if a[0].Speech? then [a[0].text] else [];
      assert Spoken(ab) == said + Spoken(a[1..] + b);
      assert Spoken(a) == said + Spoken(a[1..]);
    }
  }

  /** Exactly the non-empty segments are spoken, in order; a silence follows
      each of them except a non-empty last segment. */
  lemma {:induction false} ScheduleSpeaksNonEmpty(texts: seq<string>, i: nat)
    requires i < |texts|
    ensures Spoken(Schedule(texts, i)) == NonEmpty(texts[i..])
    ensures GapCount(Schedule(texts, i)) + (if Last(texts) != [] then 1 else 0) == |NonEmpty(texts[i..])|
    decreases |texts| - i
  {
    ScheduleCons(texts, i);
    assert texts[i..][1..] == texts[i + 1..];
    if i + 1 < |texts| {
      ScheduleSpeaksNonEmpty(texts, i + 1);
    } else {
      assert texts[i + 1..] == [];
    }
  }

  /** One step of the split loop: what segment `i` adds to the speech and the
      silences. */
  lemma ScheduleCons(texts: seq<string>, i: nat)
    requires i < |texts|
    ensures Spoken(Schedule(texts, i)) == (if texts[i] == [] then [] else [texts[i]]) + Spoken(Schedule(texts, i + 1))
    ensures GapCount(Schedule(texts, i)) == (if texts[i] != [] && i != |texts| - 1 then 1 else 0) + GapCount(Schedule(texts, i + 1))
  {
    var head := if texts[i] == [] then [] else [Speech(texts[i])] + (if i != |texts| - 1 then [Gap] else []);
    SpokenAppend(head, Schedule(texts, i + 1));
    if texts[i] != [] {
      var tail: seq<Piece> := if i != |texts| - 1 then [Gap] else [];
      SpokenAppend([Speech(texts[i])], tail);
    }
  }

  /** A text ending in `\n`: the last segment is empty, so every spoken
      segment, the last one included, is followed by a silence. */
  lemma TrailingNewlineSilence(text: string)
    requires '\n' !in text && text != []
    ensures Schedule(Split(text + "\n", '\n'), 0) == [Speech(text), Gap]
  {
    SplitPrefix(text, '\n', []);
    assert text + "\n" == text + ['\n'] + [];
    assert Split([], '\n') == [[]];
    var texts := Split(text + "\n", '\n');
    assert texts == [text, []];
    assert Schedule(texts, 2) == [];
    assert Schedule(texts, 1) == [];
  }

  /** The audio of each piece, in order. `ready` is whether the voice still
      has a session when the loop looks it up. */
  function Render<P>(pieces: seq<Piece>, parse: string -> Result<P>, synth: (P, seq<real>) -> Result<seq<real>>,
                     style: seq<real>, ready: bool, ident: string): (r: Result<seq<seq<real>>>)
    ensures r.Ok? ==> |r.value| == |pieces|
    ensures r.Ok? ==> forall k :: 0 <= k < |pieces| && pieces[k].Gap? ==> r.value[k] == Repeat(0.0, GapSamples)
    ensures r.Ok? ==> forall k :: 0 <= k < |pieces| && pieces[k].Speech? ==>
      ready && parse(pieces[k].text).Ok? && synth(parse(pieces[k].text).value, style) == Ok(r.value[k])
    ensures r.Err? && Spoken(pieces) == [] ==> false
  {
    if pieces == [] then Ok([])
    else
      var first :- match pieces[0]
        case Gap => Ok(Repeat(0.0, GapSamples))
        case Speech(t) =>
          var p :- parse(t);
          if !ready then Err(ModelNotFoundError(ident)) else synth(p, style);
      var rest :- Render(pieces[1..], parse, synth, style, ready, ident);
      Ok([first] + rest)
  }

  /** `concatenate(Axis(2), …)`: the samples joined; no array at all is a shape error. */
  function Concat(parts: seq<seq<real>>): (r: Result<seq<real>>)
    ensures r.Err? <==> parts == []
    ensures r.Err? ==> r.error == NdArrayError
    ensures r.Ok? ==> |r.value| == Sum(Lengths(parts))
  {
    if parts == [] then Err(NdArrayError)
    else
      FlattenLength(parts);
      Ok(Flatten(parts))
  }

  /** The pieces' audio joined into one array and read out as samples. */
  function SpeakAll<P>(pieces: seq<Piece>, parse: string -> Result<P>, synth: (P, seq<real>) -> Result<seq<real>>,
                       style: seq<real>, ready: bool, ident: string): (r: Result<seq<real>>)
    ensures pieces == [] ==> r == Err(NdArrayError)
    ensures r.Ok? && |pieces| == 1 && pieces[0].Speech? ==>
      ready && parse(pieces[0].text).Ok? && synth(parse(pieces[0].text).value, style) == Ok(r.value)
    ensures r.Ok? ==> exists parts :: Render(pieces, parse, synth, style, ready, ident) == Ok(parts) && r.value == Flatten(parts)
  {
    var parts :- Render(pieces, parse, synth, style, ready, ident);
    var audio :- Concat(parts);
    assert |parts| == 1 ==> Flatten(parts) == parts[0] by {
      if |parts| == 1 {
        assert Flatten(parts) == parts[0] + Flatten(parts[1..]);
      }
    }
    Features.ArrayToSamples([[audio]])
  }

  /** Whether the voice still has a session when the synthesis loop looks it up. */
  predicate Ready(h: Holder, ident: string)
  {
    Find(h, ident).Ok? && Find(h, ident).value.resident
  }

  /** `easy_synthesize`: the voice is loaded first (which may reorder the
      list), then the style vector is blended, then each segment is spoken.
      The list is not changed after the load. With `split_sentences` the
      output is the audio of the split's schedule joined in order: each
      non-empty line's speech, and a silence after each one but a last
      line. */
  function EasySynthesize<P>(rt: Runtime, h: Holder, ident: string, text: string, styleId: int, options: SynthesizeOptions,
                             parse: string -> Result<P>, synth: (P, seq<real>) -> Result<seq<real>>): (r: Step<seq<real>>)
    ensures r.holder == FindAndLoad(rt, h, ident).holder
    ensures FindAndLoad(rt, h, ident).result.Err? ==> r.result == Err(FindAndLoad(rt, h, ident).result.error)
    ensures r.result.Ok? ==> GetStyleVector(r.holder, ident, styleId, options.styleWeight).Ok?
    ensures (&& FindAndLoad(rt, h, ident).result.Ok?
             && GetStyleVector(r.holder, ident, styleId, options.styleWeight).Ok?
             && options.splitSentences && NonEmpty(Split(text, '\n')) == [])
            ==> r.result == Err(NdArrayError)
    ensures r.result.Ok? && !options.splitSentences ==>
      var style := GetStyleVector(r.holder, ident, styleId, options.styleWeight).value;
      parse(text).Ok? && synth(parse(text).value, style) == Ok(r.result.value)
    ensures r.result.Ok? && options.splitSentences ==>
      var style := GetStyleVector(r.holder, ident, styleId, options.styleWeight).value;
      var parts := Render(Schedule(Split(text, '\n'), 0), parse, synth, style, Ready(r.holder, ident), ident);
      parts.Ok? && r.result.value == Flatten(parts.value)
  {
    var loaded := FindAndLoad(rt, h, ident);
    if loaded.result.Err? then Step(loaded.holder, Err(loaded.result.error))
    else
      var h1 := loaded.holder;
      match GetStyleVector(h1, ident, styleId, options.styleWeight)
      case Err(e) => Step(h1, Err(e))
      case Ok(style) =>
        var ready := Ready(h1, ident);
        var texts := Split(text, '\n');
        var pieces := if options.splitSentences then Schedule(texts, 0) else [Speech(text)];
        assert NonEmpty(texts) == [] ==> Schedule(texts, 0) == [] by {
          if NonEmpty(texts) == [] {
            assert texts[0..] == texts;
            NoSpeechNoPieces(texts, 0);
          }
        }
        match SpeakAll(pieces, parse, synth, style, ready, ident)
        case Err(e) => Step(h1, Err(e))
        case Ok(samples) => Step(h1, Ok(samples))
  }

  /** A schedule that speaks nothing has no silence either. */
  lemma {:induction false} NoSpeechNoPieces(texts: seq<string>, i: nat)
    requires i <= |texts|
    requires NonEmpty(texts[i..]) == []
    ensures Schedule(texts, i) == []
    decreases |texts| - i
  {
    if i < |texts| {
      assert texts[i..][1..] == texts[i + 1..];
      NoSpeechNoPieces(texts, i + 1);
    }
  }

  /** With the default options the style vector is the style's own row. */
  lemma DefaultWeightIsOwnRow(h: Holder, ident: string, styleId: int)
    requires Find(h, ident).Ok? && 0 <= styleId < |Find(h, ident).value.style.rows|
    ensures DefaultOptions.splitSentences
    ensures GetStyleVector(h, ident, styleId, DefaultOptions.styleWeight) == Ok(Find(h, ident).value.style.rows[styleId])
  {
    Style.StyleVectorEnds(Find(h, ident).value.style, styleId, 1.0);
  }

  /** Two lines give the first line's speech, half a second of silence, and
      the second line's speech, in that order. */
  lemma TwoLines<P>(rt: Runtime, h: Holder, ident: string, a: string, b: string, styleId: int, options: SynthesizeOptions,
                    parse: string -> Result<P>, synth: (P, seq<real>) -> Result<seq<real>>)
    requires '\n' !in a && '\n' !in b && a != [] && b != []
    requires options.splitSentences
    requires EasySynthesize(rt, h, ident, a + "\n" + b, styleId, options, parse, synth).result.Ok?
    ensures var r := EasySynthesize(rt, h, ident, a + "\n" + b, styleId, options, parse, synth);
      var style := GetStyleVector(r.holder, ident, styleId, options.styleWeight).value;
      && parse(a).Ok? && synth(parse(a).value, style).Ok?
      && parse(b).Ok? && synth(parse(b).value, style).Ok?
      && r.result.value == synth(parse(a).value, style).value + Repeat(0.0, GapSamples) + synth(parse(b).value, style).value
  {
    var r := EasySynthesize(rt, h, ident, a + "\n" + b, styleId, options, parse, synth);
    var style := GetStyleVector(r.holder, ident, styleId, options.styleWeight).value;
    SplitPrefix(a, '\n', b);
    SplitFree(b, '\n');
    assert a + "\n" + b == a + ['\n'] + b;
    var texts := Split(a + "\n" + b, '\n');
    assert texts == [a, b];
    assert Schedule(texts, 2) == [];
    assert Schedule(texts, 1) == [Speech(b)];
    var pieces := Schedule(texts, 0);
    assert pieces == [Speech(a), Gap, Speech(b)];
    var parts := Render(pieces, parse, synth, style, Ready(r.holder, ident), ident).value;
    assert |parts| == 3;
    var p1 := parts[1..];
    var p2 := p1[1..];
    assert p2[1..] == [];
    assert Flatten(p2) == parts[2] + [];
    assert Flatten(p1) == parts[1] + Flatten(p2);
    assert Flatten(parts) == parts[0] + Flatten(p1);
    assert parts[2] + [] == parts[2];
  }
}
