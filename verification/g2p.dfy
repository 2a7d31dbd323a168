/** The Japanese front end's entry point: `parse_to_string_and_pron`,
    `text_to_seq_kata` and `g2p` (sbv2_core/src/jtalk.rs:108-155, 267-298;
    sbv2_core/src/text.rs:113-163, 289-320). The morphological analysis that
    produces the feature lines and the full-context labels, and
    `replace_punctuation`, are outside this model and come in as parameters. */
module G2p {
  import opened Wrappers
  import opened Seqs
  import opened Prosody
  import opened Tones
  import opened Kana
  import opened LongVowels
  import opened Align

  /** `parse_to_string_and_pron`: fields 0 and 9 of a comma-separated
      feature line; a line with fewer than ten fields is an index panic. */
  function ParseToStringAndPron(parts: string): (r: Result<(string, string)>)
    ensures r.Ok? <==> |Split(parts, ',')| >= 10
    ensures r.Err? ==> r.error.Panic?
  {
    var fields := Split(parts, ',');
    if |fields| < 10 then Err(Panic("index out of bounds: feature line has fewer than ten fields"))
    else Ok((fields[0], fields[9]))
  }

  /** Joining fields without commas and parsing gives back the surface
      string and the pronunciation. */
  lemma ParseFields(fields: seq<string>)
    requires |fields| >= 10
    requires forall k :: 0 <= k < |fields| ==> ',' !in fields[k]
    ensures ParseToStringAndPron(Join(fields, ',')) == Ok((fields[0], fields[9]))
  {
    SplitJoin(fields, ',');
  }

  /** `s` without any `c`. */
  function Without(s: string, c: char): (r: string)
    ensures c !in r
    ensures c !in s ==> r == s
  {
    if s == [] then []
    else if s[0] == c then Without(s[1..], c)
    else [s[0]] + Without(s[1..], c)
  }

  /** `str::replace(c, "")` removes every occurrence of the char. */
  lemma {:induction false} ReplaceByEmptyIsWithout(s: string, c: char)
    ensures Replace(s, [c], []) == Without(s, c)
  {
    if s != [] {
      ReplaceByEmptyIsWithout(s[1..], c);
      assert s[..1] == [s[0]];
      assert s[1..] == s[|[c]|..];
    }
  }

  /** The reading kept for one word: `’` removed; an empty reading panics; the
      pause reading `、` becomes the word itself when the word is all
      punctuation, else one `'` per UTF-8 byte of the word; the reading `？`
      must come from the word `?`. */
  function Yomi(punctuations: seq<string>, word: string, pron: string): (r: Result<string>)
    ensures var y := Replace(pron, ['’'], []);
      r.Err? <==> y == [] || (y == "？" && word != "?")
    ensures r.Err? ==> r.error.Panic?
    ensures var y := Replace(pron, ['’'], []);
      y != "、" && y != "？" && y != [] ==> r == Ok(y)
  {
    var yomi := Replace(pron, ['’'], []);
    if yomi == [] then Err(Panic("Empty yomi"))
    else if yomi == "、" then
      if !AllPunctuation(punctuations, word) then Ok(Repeat('\'', Utf8Len(word))) else Ok(word)
    else if yomi == "？" then
      if word == "?" then Ok("?") else Err(Panic("yomi ？ does not come from ?"))
    else Ok(yomi)
  }

  /** A pause reading on a word that is not all punctuation becomes as many
      apostrophes as the word has bytes; on a punctuation word it becomes the
      word. */
  lemma PauseReading(punctuations: seq<string>, word: string, pron: string)
    requires Without(pron, '’') == "、"
    ensures !AllPunctuation(punctuations, word) ==>
      Yomi(punctuations, word, pron) == Ok(Repeat('\'', Utf8Len(word)))
    ensures AllPunctuation(punctuations, word) ==> Yomi(punctuations, word, pron) == Ok(word)
  {
    ReplaceByEmptyIsWithout(pron, '’');
  }

  /** One feature line: the punctuation-normalised word and its reading. */
  function SeqKataItem(punctuations: seq<string>, replacePunctuation: string -> string, parts: string): (r: Result<(string, string)>)
    ensures r.Err? ==> r.error.Panic?
  {
    var sp :- ParseToStringAndPron(parts);
    var word := replacePunctuation(sp.0);
    var yomi :- Yomi(punctuations, word, sp.1);
    Ok((word, yomi))
  }

  /** `text_to_seq_kata`: the words and readings of every feature line. */
  function TextToSeqKata(punctuations: seq<string>, replacePunctuation: string -> string, parsed: seq<string>): (r: Result<(seq<string>, seq<string>)>)
    ensures r.Ok? <==> forall i :: 0 <= i < |parsed| ==> SeqKataItem(punctuations, replacePunctuation, parsed[i]).Ok?
    ensures r.Err? ==> r.error.Panic?
    ensures r.Ok? ==> |r.value.0| == |parsed| && |r.value.1| == |parsed|
    ensures r.Ok? ==> forall i :: 0 <= i < |parsed| ==>
      SeqKataItem(punctuations, replacePunctuation, parsed[i]) == Ok((r.value.0[i], r.value.1[i]))
  {
    if parsed == [] then Ok(([], []))
    else
      var item :- SeqKataItem(punctuations, replacePunctuation, parsed[0]);
      var rest :- TextToSeqKata(punctuations, replacePunctuation, parsed[1..]);
      assert forall i :: 1 <= i < |parsed| ==> parsed[i] == parsed[1..][i - 1];
      Ok(([item.0] + rest.0, [item.1] + rest.1))
  }

  /** How a reading that is all punctuation is recognised. `WholeString` is
      the code's test, at sbv2_core/src/jtalk.rs:227 and
      sbv2_core/src/text.rs:232: the reading must itself be one entry of
      `PUNCTUATIONS`. `PerChar` is the test of the Python original it was
      ported from: every char of the reading is one. */
  datatype PunctuationTest = WholeString | PerChar

  /** `kata_to_phoneme_list` under the given punctuation test. */
  function ToPhonemes(test: PunctuationTest, d: Dialect, t: KanaTables, text: string): Result<seq<string>>
    requires ValidOrder(t)
  {
    match test
    case WholeString => KataToPhonemeListAsWritten(d, t, text)
    case PerChar => KataToPhonemeList(d, t, text)
  }

  /** Each reading to its phoneme list; a conversion error is unwrapped, so it
      is a panic. */
  function PhonemeLists(test: PunctuationTest, d: Dialect, t: KanaTables, katas: seq<string>): (r: Result<seq<seq<string>>>)
    requires ValidOrder(t)
    ensures r.Ok? <==> forall i :: 0 <= i < |katas| ==> ToPhonemes(test, d, t, katas[i]).Ok?
    ensures r.Err? ==> r.error.Panic?
    ensures r.Ok? ==> |r.value| == |katas|
    ensures r.Ok? ==> forall i :: 0 <= i < |katas| ==> ToPhonemes(test, d, t, katas[i]) == Ok(r.value[i])
    ensures test == WholeString && r.Ok? ==>
      forall i :: 0 <= i < |katas| ==> katas[i] in t.punctuations || HasKatakana(katas[i])
  {
    if katas == [] then Ok([])
    else
      var head := ToPhonemes(test, d, t, katas[0]);
      if head.Err? then Err(Panic("unwrap on a conversion error"))
      else
        var rest :- PhonemeLists(test, d, t, katas[1..]);
        assert forall i :: 1 <= i < |katas| ==> katas[i] == katas[1..][i - 1];
        Ok([head.value] + rest)
  }

  /** A word split for `word2ph`: a punctuation string stays whole, any
      other word is split into its chars. */
  function Tokenized(punctuations: seq<string>, text: string): (r: seq<string>)
    ensures |r| == (if text in punctuations then 1 else |text|)
  {
    if text !in punctuations then Chars(text) else [text]
  }

  /** `word2ph` before padding: the zip of tokens and phoneme lists, each pair
      spread with `distribute_phone`. */
  function Word2ph(tokens: seq<seq<string>>, phonemes: seq<seq<string>>): (r: Result<seq<int>>)
    ensures r.Err? ==> r.error.Panic?
    ensures r.Err? <==> exists i :: 0 <= i < |tokens| && i < |phonemes| && |tokens[i]| == 0 && |phonemes[i]| > 0
  {
    if tokens == [] || phonemes == [] then Ok([])
    else
      var head :- DistributePhone(|phonemes[0]|, |tokens[0]|);
      var rest := Word2ph(tokens[1..], phonemes[1..]);
      assert forall i :: 1 <= i < |tokens| && i < |phonemes| ==>
        tokens[i] == tokens[1..][i - 1] && phonemes[i] == phonemes[1..][i - 1];
      if rest.Err? then Err(rest.error) else Ok(head + rest.value)
  }

  /** One `word2ph` entry per token, and the entries add up to the number of
      phonemes. */
  lemma {:induction false} Word2phCounts(tokens: seq<seq<string>>, phonemes: seq<seq<string>>)
    requires |tokens| == |phonemes|
    requires Word2ph(tokens, phonemes).Ok?
    ensures |Word2ph(tokens, phonemes).value| == Sum(Lengths(tokens))
    ensures Sum(Word2ph(tokens, phonemes).value) == Sum(Lengths(phonemes))
  {
    if tokens != [] {
      var np := |phonemes[0]|;
      var nw := |tokens[0]|;
      var head := DistributePhone(np, nw).value;
      Word2phCounts(tokens[1..], phonemes[1..]);
      var rest := Word2ph(tokens[1..], phonemes[1..]).value;
      assert Word2ph(tokens, phonemes).value == head + rest;
      SumAppend(head, rest);
      if nw > 0 {
        DistributeSum(np, nw);
      }
      assert Lengths(tokens)[1..] == Lengths(tokens[1..]);
      assert Lengths(phonemes)[1..] == Lengths(phonemes[1..]);
    }
  }

  /** The three outputs of `g2p`. */
  datatype G2pOutput = G2pOutput(phones: seq<string>, tones: seq<int>, word2ph: seq<int>)

  /** The silence both ends of the phoneme list are padded with. */
  const Pad: PhoneTone := PhoneTone("_", 0)

  /** `seq_text` and `sep_phonemes` of `g2p`: the words of the feature lines,
      and their readings converted to phoneme lists with long marks resolved.
      Any failure here is a panic. */
  function Words(test: PunctuationTest, d: Dialect, t: KanaTables, vowels: seq<string>, replacePunctuation: string -> string,
                 parsed: seq<string>): (r: Result<(seq<string>, seq<seq<string>>)>)
    requires ValidOrder(t)
    ensures r.Err? ==> r.error.Panic?
    ensures r.Ok? ==> |r.value.0| == |parsed| && |r.value.1| == |parsed|
    ensures r.Ok? ==> TextToSeqKata(t.punctuations, replacePunctuation, parsed).Ok?
    ensures r.Ok? ==> var seqs := TextToSeqKata(t.punctuations, replacePunctuation, parsed).value;
      r.value.0 == seqs.0 && PhonemeLists(test, d, t, seqs.1).Ok?
      && HandleLong(vowels, PhonemeLists(test, d, t, seqs.1).value) == Ok(r.value.1)
  {
    var seqs :- TextToSeqKata(t.punctuations, replacePunctuation, parsed);
    var lists :- PhonemeLists(test, d, t, seqs.1);
    var sep :- HandleLong(vowels, lists);
    Ok((seqs.0, sep))
  }

  /** The words split for `word2ph`. */
  function Tokens(punctuations: seq<string>, words: seq<string>): (r: seq<seq<string>>)
    ensures |r| == |words|
    ensures forall i :: 0 <= i < |words| ==> r[i] == Tokenized(punctuations, words[i])
  {
    seq(|words|, i requires 0 <= i < |words| => Tokenized(punctuations, words[i]))
  }

  /** `g2p`: tones from the labels, readings from the feature lines, phoneme
      lists with long marks resolved, tones aligned to them, and each word's
      phonemes spread over its chars. The code's `g2p` is the `WholeString`
      test. The older copy computes `word2ph` but returns `[1, 1, 1]`.
      The tone list is computed first, so its failure is the one reported;
      any failure in the readings is a panic. On success the phones are the
      words' phonemes padded with `_`, the tones are their aligned tones
      padded with 0, and in the current copy `word2ph` is
      the spread of each word's phonemes over its chars, padded with 1. */
  function G2pRun(test: PunctuationTest, d: Dialect, t: KanaTables, vowels: seq<string>, replacePunctuation: string -> string,
                  parsed: seq<string>, labels: seq<Label>): (r: Result<G2pOutput>)
    requires ValidOrder(t)
    ensures G2PhoneToneWoPunct(d, labels).Err? ==> r == Err(G2PhoneToneWoPunct(d, labels).error)
    ensures G2PhoneToneWoPunct(d, labels).Ok? && Words(test, d, t, vowels, replacePunctuation, parsed).Err? ==>
      r.Err? && r.error.Panic?
    ensures r.Ok? ==> Words(test, d, t, vowels, replacePunctuation, parsed).Ok?
    ensures r.Ok? ==> var w := Words(test, d, t, vowels, replacePunctuation, parsed).value;
      r.value.phones == ["_"] + Flatten(w.1) + ["_"]
    ensures r.Ok? ==> |r.value.phones| == |r.value.tones| >= 2
    ensures r.Ok? ==> r.value.tones[0] == 0 && Last(r.value.tones) == 0
    ensures r.Ok? ==> |r.value.word2ph| >= 2 && r.value.word2ph[0] == 1 && Last(r.value.word2ph) == 1
    ensures r.Ok? && d == Current ==> var w := Words(test, d, t, vowels, replacePunctuation, parsed).value;
      Word2ph(Tokens(t.punctuations, w.0), w.1) == Ok(r.value.word2ph[1..|r.value.word2ph| - 1])
    ensures r.Ok? && d == Legacy ==> r.value.word2ph == [1, 1, 1]
    ensures r.Ok? ==> var w := Words(test, d, t, vowels, replacePunctuation, parsed).value;
      var aligned := AlignTones(t.punctuations, Flatten(w.1), G2PhoneToneWoPunct(d, labels).value);
      aligned.Ok? && r.value.tones == [0] + ToneList(aligned.value) + [0]
    ensures G2PhoneToneWoPunct(d, labels).Ok? && Words(test, d, t, vowels, replacePunctuation, parsed).Ok? ==>
      var w := Words(test, d, t, vowels, replacePunctuation, parsed).value;
      var aligned := AlignTones(t.punctuations, Flatten(w.1), G2PhoneToneWoPunct(d, labels).value);
      aligned.Err? ==> r == Err(aligned.error)
  {
    var tl :- G2PhoneToneWoPunct(d, labels);
    var w :- Words(test, d, t, vowels, replacePunctuation, parsed);
    var aligned :- AlignTones(t.punctuations, Flatten(w.1), tl);
    var w2p :- Word2ph(Tokens(t.punctuations, w.0), w.1);
    var padded := [Pad] + aligned + [Pad];
    Padded(aligned);
    var word2ph := if d == Current then [1] + w2p + [1] else [1, 1, 1];
    assert d == Current ==> word2ph[1..|word2ph| - 1] == w2p;
    Ok(G2pOutput(Phones(padded), ToneList(padded), word2ph))
  }

  /** Padding with `Pad` puts `_` around the phones and 0 around the tones. */
  lemma Padded(ps: seq<PhoneTone>)
    ensures Phones([Pad] + ps + [Pad]) == ["_"] + Phones(ps) + ["_"]
    ensures ToneList([Pad] + ps + [Pad]) == [0] + ToneList(ps) + [0]
  {
    PhonesAppend([Pad] + ps, [Pad]);
    PhonesAppend([Pad], ps);
    assert Phones([Pad]) == ["_"];
    var padded := [Pad] + ps + [Pad];
    assert ToneList(padded) == [0] + ToneList(ps) + [0] by {
      forall k | 0 <= k < |padded| ensures ToneList(padded)[k] == ([0] + ToneList(ps) + [0])[k] {
        if 0 < k < |padded| - 1 {
          assert padded[k] == ps[k - 1];
        }
      }
    }
  }

  /** Every tone `g2p` returns is 0 or 1. */
  lemma G2pTonesAreBits(test: PunctuationTest, d: Dialect, t: KanaTables, vowels: seq<string>, replacePunctuation: string -> string,
                        parsed: seq<string>, labels: seq<Label>)
    requires ValidOrder(t)
    requires G2pRun(test, d, t, vowels, replacePunctuation, parsed, labels).Ok?
    ensures var out := G2pRun(test, d, t, vowels, replacePunctuation, parsed, labels).value;
      forall i :: 0 <= i < |out.tones| ==> 0 <= out.tones[i] <= 1
  {
    var tl := G2PhoneToneWoPunct(d, labels).value;
    var w := Words(test, d, t, vowels, replacePunctuation, parsed).value;
    AlignKeepsToneBits(t.punctuations, Flatten(w.1), tl, 0);
    var aligned := AlignTones(t.punctuations, Flatten(w.1), tl).value;
    var padded := [Pad] + aligned + [Pad];
    assert ToneBits(padded) by {
      forall i | 0 <= i < |padded| ensures 0 <= padded[i].tone <= 1 {
        if 0 < i < |padded| - 1 {
          assert padded[i] == aligned[i - 1];
        }
      }
    }
  }

  /** In the current copy, `word2ph` has one entry per char (or punctuation
      word) plus the two pads, and its entries add up to the number of
      phones, pads included. */
  lemma G2pWord2phSum(test: PunctuationTest, t: KanaTables, vowels: seq<string>, replacePunctuation: string -> string,
                      parsed: seq<string>, labels: seq<Label>)
    requires ValidOrder(t)
    requires G2pRun(test, Current, t, vowels, replacePunctuation, parsed, labels).Ok?
    ensures var out := G2pRun(test, Current, t, vowels, replacePunctuation, parsed, labels).value;
      var w := Words(test, Current, t, vowels, replacePunctuation, parsed).value;
      && Sum(out.word2ph) == |out.phones|
      && |out.word2ph| == Sum(Lengths(Tokens(t.punctuations, w.0))) + 2
  {
    var out := G2pRun(test, Current, t, vowels, replacePunctuation, parsed, labels).value;
    var w := Words(test, Current, t, vowels, replacePunctuation, parsed).value;
    var tokens := Tokens(t.punctuations, w.0);
    var w2p := Word2ph(tokens, w.1).value;
    Word2phCounts(tokens, w.1);
    FlattenLength(w.1);
    assert out.word2ph == [1] + w2p + [1];
    SumAppend([1], w2p);
    SumAppend([1] + w2p, [1]);
    assert Sum([1]) == 1;
  }

  /** A feature line for the word `…` read as a pause (`、`), with
      `replace_punctuation` turning the word into `...`: its word and its
      reading are both `...`. */
  lemma EllipsisReadings(t: KanaTables, replacePunctuation: string -> string, line: string)
    requires "." in t.punctuations
    requires replacePunctuation("…") == "..."
    requires ParseToStringAndPron(line) == Ok(("…", "、"))
    ensures TextToSeqKata(t.punctuations, replacePunctuation, [line]) == Ok((["..."], ["..."]))
  {
    ReplaceByEmptyIsWithout("、", '’');
    assert Without("、", '’') == "、" by {
      assert "、"[1..] == [];
    }
    assert AllPunctuation(t.punctuations, "...");
    assert Yomi(t.punctuations, "...", "、") == Ok("...");
    assert SeqKataItem(t.punctuations, replacePunctuation, line) == Ok(("...", "..."));
    assert [line][1..] == [];
    assert TextToSeqKata(t.punctuations, replacePunctuation, []) == Ok(([], []));
    assert TextToSeqKata(t.punctuations, replacePunctuation, [line]) == Ok((["..."] + [], ["..."] + []));
    assert ["..."] + [] == ["..."];
  }

  /** Under the whole-string test the ellipsis reading fails to convert. */
  lemma EllipsisWordsFail(d: Dialect, t: KanaTables, vowels: seq<string>, replacePunctuation: string -> string, line: string)
    requires ValidOrder(t)
    requires "." in t.punctuations && "..." !in t.punctuations
    requires replacePunctuation("…") == "..."
    requires ParseToStringAndPron(line) == Ok(("…", "、"))
    ensures Words(WholeString, d, t, vowels, replacePunctuation, [line]).Err?
  {
    EllipsisReadings(t, replacePunctuation, line);
    WholeStringPunctuationCheck(d, t);
    assert ToPhonemes(WholeString, d, t, ["..."][0]).Err?;
    assert PhonemeLists(WholeString, d, t, ["..."]).Err?;
  }

  /** The whole-string test as written makes `g2p` panic on the word `…`
      whenever the tone list succeeds: the pause reading of an all-punctuation
      word is the word `...` itself, which is not one entry of `PUNCTUATIONS`
      and has no katakana, so its `unwrap` fails. */
  lemma EllipsisWordPanics(d: Dialect, t: KanaTables, vowels: seq<string>, replacePunctuation: string -> string,
                           line: string, labels: seq<Label>)
    requires ValidOrder(t)
    requires "." in t.punctuations && "..." !in t.punctuations
    requires replacePunctuation("…") == "..."
    requires ParseToStringAndPron(line) == Ok(("…", "、"))
    requires G2PhoneToneWoPunct(d, labels).Ok?
    ensures G2pRun(WholeString, d, t, vowels, replacePunctuation, [line], labels).Err?
    ensures G2pRun(WholeString, d, t, vowels, replacePunctuation, [line], labels).error.Panic?
  {
    EllipsisWordsFail(d, t, vowels, replacePunctuation, line);
  }

  /** The corrected half: under the per-char test the ellipsis reading
      converts to three dots. */
  lemma EllipsisConvertsPerChar(d: Dialect, t: KanaTables)
    requires ValidOrder(t)
    requires "." in t.punctuations && "..." !in t.punctuations
    ensures PhonemeLists(PerChar, d, t, ["..."]) == Ok([[".", ".", "."]])
  {
    WholeStringPunctuationCheck(d, t);
    assert ToPhonemes(PerChar, d, t, ["..."][0]) == Ok([".", ".", "."]);
    assert ["..."][1..] == [];
    assert PhonemeLists(PerChar, d, t, []) == Ok([]);
    assert PhonemeLists(PerChar, d, t, ["..."]) == Ok([[".", ".", "."]] + []);
    assert [[".", ".", "."]] + [] == [[".", ".", "."]];
  }
}
