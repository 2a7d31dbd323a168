/** Katakana to phonemes: `kata_to_phoneme_list`
    (sbv2_core/src/jtalk.rs:60-66, 226-265; sbv2_core/src/text.rs:65-71, 229-287). */
module Kana {
  import opened Wrappers
  import opened Seqs
  import opened Tables
  import opened Prosody

  /** The tables the conversion reads: `PUNCTUATIONS`, the mora table and
      `MORA_PATTERN`, the table's keys sorted by byte length, longest first. */
  datatype KanaTables = KanaTables(
    punctuations: seq<string>,
    moras: map<string, MoraPhonemes>,
    order: seq<string>)

  /** U+30A0 to U+30FF, the range of `KATAKANA_PATTERN`. */
  predicate IsKatakana(c: char)
  {
    '゠' <= c <= 'ヿ'
  }

  const LongMarkChar: char := 'ー'

  /** `MORA_PATTERN` lists every key once, longest (in UTF-8 bytes) first; the
      order among keys of equal length is the map's iteration order, which the
      model leaves open. Keys are non-empty. */
  predicate ValidOrder(t: KanaTables)
  {
    && (forall a :: 0 <= a < |t.order| ==> t.order[a] in t.moras)
    && (forall k :: k in t.moras ==> k in t.order)
    && (forall a, b :: 0 <= a < b < |t.order| ==> t.order[a] != t.order[b])
    && (forall a, b :: 0 <= a < b < |t.order| ==> Utf8Len(t.order[a]) >= Utf8Len(t.order[b]))
    && (forall a :: 0 <= a < |t.order| ==> |t.order[a]| > 0)
  }

  /** `format!(" {}", vowel)` or `format!(" {} {}", consonant, vowel)`. */
  function MoraText(p: MoraPhonemes): string
  {
    if p.consonant.None? then " " + p.vowel else " " + p.consonant.value + " " + p.vowel
  }

  /** The phonemes of one mora. */
  function MoraWords(p: MoraPhonemes): seq<string>
  {
    if p.consonant.None? then [p.vowel] else [p.consonant.value, p.vowel]
  }

  /** The replacement loop: each key of `order`, in turn, replaced everywhere. */
  function ReplaceMoras(text: string, moras: map<string, MoraPhonemes>, order: seq<string>): string
    requires forall a :: 0 <= a < |order| ==> order[a] in moras && |order[a]| > 0
    decreases |order|
  {
    if order == [] then text
    else ReplaceMoras(Replace(text, order[0], MoraText(moras[order[0]])), moras, order[1..])
  }

  /** `\w` for the scripts the front end meets: ASCII letters, digits and `_`,
      hiragana, katakana (including `ー`) and the CJK unified ideographs. */
  predicate IsWordChar(c: char)
  {
    || ('0' <= c <= '9') || ('A' <= c <= 'Z') || ('a' <= c <= 'z') || c == '_'
    || ('ぁ' <= c <= 'ゖ') || ('゙' <= c <= '゚') || ('ゝ' <= c <= 'ゟ')
    || ('ァ' <= c <= 'ヺ') || ('ー' <= c <= 'ヿ')
    || ('一' <= c <= '鿿')
  }

  /** Number of `ー` at the start of `s`. */
  function LongRun(s: string): (n: nat)
    ensures n <= |s|
    ensures forall k :: 0 <= k < n ==> s[k] == LongMarkChar
    ensures n < |s| ==> s[n] != LongMarkChar
  {
    if s == [] || s[0] != LongMarkChar then 0 else 1 + LongRun(s[1..])
  }

  /** How often a run of marks repeats its char: once per char in the current
      copy, once per UTF-8 byte (`str::len`) in the older one. */
  function LongCount(d: Dialect, run: string): nat
  {
    if d == Current then |run| else Utf8Len(run)
  }

  /** `LONG_PATTERN.replace_all`: each word char followed by a run of `ー`
      becomes the char and then ` c` once per counted mark. */
  function LongExpand(d: Dialect, s: string): string
    decreases |s|, 1
  {
    if s == [] then []
    else if !IsWordChar(s[0]) then [s[0]] + LongExpand(d, s[1..])
    else LongWord(d, s[0], s[1..])
  }

  /** The word char `c` followed by `t`: `c`, its marks, then the rest. */
  function LongWord(d: Dialect, c: char, t: string): string
    decreases |t| + 1, 0
  {
    var m := LongRun(t);
    [c] + Flatten(Repeat([' ', c], LongCount(d, t[..m]))) + LongExpand(d, t[m..])
  }

  /** Unicode White_Space, what `str::trim` strips. */
  predicate IsWhiteSpace(c: char)
  {
    || ('\U{0009}' <= c <= '\U{000D}') || c == '\U{0020}' || c == '\U{0085}' || c == '\U{00A0}'
    || c == '\U{1680}' || ('\U{2000}' <= c <= '\U{200A}') || c == '\U{2028}' || c == '\U{2029}'
    || c == '\U{202F}' || c == '\U{205F}' || c == '\U{3000}'
  }

  function TrimStart(s: string): (r: string)
    ensures |r| <= |s|
  {
    if s != [] && IsWhiteSpace(s[0]) then TrimStart(s[1..]) else s
  }

  function TrimEnd(s: string): (r: string)
    ensures |r| <= |s|
  {
    if s != [] && IsWhiteSpace(Last(s)) then TrimEnd(s[..|s| - 1]) else s
  }

  /** `str::trim`. */
  function Trim(s: string): string
  {
    TrimEnd(TrimStart(s))
  }

  /** Each char of `s` as a one-char string. */
  function Chars(s: string): (r: seq<string>)
    ensures |r| == |s|
    ensures forall i :: 0 <= i < |s| ==> r[i] == [s[i]]
  {
    seq(|s|, i requires 0 <= i < |s| => [s[i]])
  }

  predicate HasKatakana(s: string)
  {
    exists i :: 0 <= i < |s| && IsKatakana(s[i])
  }

  /** Every char of `text`, as a one-char string, is a punctuation string. */
  predicate AllPunctuation(punctuations: seq<string>, text: string)
  {
    forall i :: 0 <= i < |text| ==> [text[i]] in punctuations
  }

  /** The kana branch: mora replacement, long-mark expansion, trim, split. */
  function Convert(d: Dialect, t: KanaTables, text: string): seq<string>
    requires ValidOrder(t)
  {
    Split(Trim(LongExpand(d, ReplaceMoras(text, t.moras, t.order))), ' ')
  }

  /** `kata_to_phoneme_list` as written: the punctuation branch is taken only
      when the whole text is one of the punctuation strings. */
  function KataToPhonemeListAsWritten(d: Dialect, t: KanaTables, text: string): (r: Result<seq<string>>)
    requires ValidOrder(t)
    ensures text in t.punctuations ==> r == Ok(Chars(text))
    ensures r.Err? <==> text !in t.punctuations && !HasKatakana(text)
    ensures r.Err? ==> r.error.ValueError?
  {
    if text in t.punctuations then Ok(Chars(text))
    else if !HasKatakana(text) then Err(ValueError("Input must be katakana only: " + text))
    else Ok(Convert(d, t, text))
  }

  /** `kata_to_phoneme_list` with the punctuation test of the Python original
      it reproduces (a text made only of punctuation chars is returned char
      by char), which is what its callers build texts for. */
  function KataToPhonemeList(d: Dialect, t: KanaTables, text: string): (r: Result<seq<string>>)
    requires ValidOrder(t)
    ensures AllPunctuation(t.punctuations, text) ==> r == Ok(Chars(text))
    ensures r.Err? <==> !AllPunctuation(t.punctuations, text) && !HasKatakana(text)
    ensures r.Err? ==> r.error.ValueError?
  {
    if AllPunctuation(t.punctuations, text) then Ok(Chars(text))
    else if !HasKatakana(text) then Err(ValueError("Input must be katakana only: " + text))
    else Ok(Convert(d, t, text))
  }

  /** The whole-string test rejects a run of punctuation such as `...`, which
      `text_to_seq_kata` produces for the word `…`; the char-wise test
      returns it char by char. */
  lemma WholeStringPunctuationCheck(d: Dialect, t: KanaTables)
    requires ValidOrder(t)
    requires "." in t.punctuations && "..." !in t.punctuations
    ensures KataToPhonemeListAsWritten(d, t, "...").Err?
    ensures KataToPhonemeList(d, t, "...") == Ok([".", ".", "."])
  {
    assert !IsKatakana("..."[0]) && !IsKatakana("..."[1]) && !IsKatakana("..."[2]);
    assert AllPunctuation(t.punctuations, "...");
    var cs := Chars("...");
    assert cs[0] == "." && cs[1] == "." && cs[2] == ".";
    assert cs == [".", ".", "."];
  }

  /** The two tests agree on every one-char text. */
  lemma PunctuationTestsAgreeOnOneChar(d: Dialect, t: KanaTables, c: char)
    requires ValidOrder(t)
    ensures KataToPhonemeListAsWritten(d, t, [c]) == KataToPhonemeList(d, t, [c])
  {
    assert AllPunctuation(t.punctuations, [c]) <==> [[c][0]] in t.punctuations;
    assert [[c][0]] == [c];
  }

  // ---------------------------------------------------------------------
  // Replacement facts

  lemma {:induction false} ReplaceMorasAppend(text: string, moras: map<string, MoraPhonemes>,
                                              a: seq<string>, b: seq<string>)
    requires forall k :: 0 <= k < |a| ==> a[k] in moras && |a[k]| > 0
    requires forall k :: 0 <= k < |b| ==> b[k] in moras && |b[k]| > 0
    ensures ReplaceMoras(text, moras, a + b) == ReplaceMoras(ReplaceMoras(text, moras, a), moras, b)
    decreases |a|
  {
    if a == [] {
      assert a + b == b;
    } else {
      assert (a + b)[0] == a[0];
      assert (a + b)[1..] == a[1..] + b;
      ReplaceMorasAppend(Replace(text, a[0], MoraText(moras[a[0]])), moras, a[1..], b);
    }
  }

  /** Keys that do not occur leave the text alone. */
  lemma {:induction false} ReplaceMorasAbsent(text: string, moras: map<string, MoraPhonemes>, order: seq<string>)
    requires forall k :: 0 <= k < |order| ==> order[k] in moras && |order[k]| > 0
    requires forall k :: 0 <= k < |order| ==> !IsInfix(order[k], text)
    ensures ReplaceMoras(text, moras, order) == text
  {
    if order != [] {
      ReplaceAbsent(text, order[0], MoraText(moras[order[0]]));
      ReplaceMorasAbsent(text, moras, order[1..]);
    }
  }

  /** A pattern whose first char never occurs in `s` does not occur in `s`. */
  lemma FirstCharAbsent(p: string, s: string)
    requires |p| > 0
    requires forall i :: 0 <= i < |s| ==> s[i] != p[0]
    ensures !IsInfix(p, s)
  {
    forall i | 0 <= i <= |s| ensures !OccursAt(p, s, i) {
      if i + |p| <= |s| {
        assert s[i..i + |p|][0] == s[i];
      }
    }
  }

  /** A kana pattern at least as long as `k`, different from it and without
      `ー`, does not occur in `k` followed by marks. */
  lemma LongerKeyAbsent(p: string, k: string, m: nat)
    requires |p| >= |k| > 0 && p != k
    requires LongMarkChar !in p
    ensures !IsInfix(p, k + Repeat(LongMarkChar, m))
  {
    var s := k + Repeat(LongMarkChar, m);
    forall i | 0 <= i <= |s| ensures !OccursAt(p, s, i) {
      if i + |p| <= |s| {
        var w := s[i..i + |p|];
        if i == 0 && |p| == |k| {
          assert w == k;
        } else if i == 0 {
          assert w[|k|] == LongMarkChar;
        } else {
          assert w[|p| - 1] == s[i + |p| - 1] == LongMarkChar;
        }
      }
    }
  }

  // ---------------------------------------------------------------------
  // Spacing, trimming and splitting

  /** Words each preceded by one space: what the replacements build. */
  function Spaced(ws: seq<string>): string
  {
    if ws == [] then [] else [' '] + ws[0] + Spaced(ws[1..])
  }

  /** A phoneme the expansion and the split leave whole: non-empty ASCII word
      chars, no `ー`, no white space. */
  predicate PlainWord(w: string)
  {
    |w| > 0 && forall i :: 0 <= i < |w| ==> ('0' <= w[i] <= '9' || 'A' <= w[i] <= 'Z' || 'a' <= w[i] <= 'z' || w[i] == '_')
  }

  predicate PlainWords(ws: seq<string>)
  {
    forall i :: 0 <= i < |ws| ==> PlainWord(ws[i])
  }

  lemma MoraTextSpaced(p: MoraPhonemes)
    ensures MoraText(p) == Spaced(MoraWords(p))
  {
    var ws := MoraWords(p);
    if p.consonant.None? {
      assert Spaced(ws) == [' '] + p.vowel + Spaced([]);
    } else {
      assert ws[1..] == [p.vowel];
      assert Spaced(ws[1..]) == [' '] + p.vowel + Spaced([]);
    }
  }

  lemma {:induction false} SpacedAppend(a: seq<string>, b: seq<string>)
    ensures Spaced(a + b) == Spaced(a) + Spaced(b)
  {
    if a == [] {
      assert a + b == b;
    } else {
      assert (a + b)[1..] == a[1..] + b;
      SpacedAppend(a[1..], b);
    }
  }

  lemma {:induction false} SpacedJoin(ws: seq<string>)
    requires |ws| > 0
    ensures Spaced(ws) == [' '] + Join(ws, ' ')
  {
    if |ws| > 1 {
      SpacedJoin(ws[1..]);
    } else {
      assert Spaced(ws[1..]) == [];
    }
  }

  lemma {:induction false} SpacedChars(ws: seq<string>)
    requires PlainWords(ws)
    ensures forall i :: 0 <= i < |Spaced(ws)| ==> Spaced(ws)[i] == ' ' || ('0' <= Spaced(ws)[i] <= '9' || 'A' <= Spaced(ws)[i] <= 'Z' || 'a' <= Spaced(ws)[i] <= 'z' || Spaced(ws)[i] == '_')
  {
    if ws != [] {
      SpacedChars(ws[1..]);
      var s := Spaced(ws);
      var tail := Spaced(ws[1..]);
      assert s == [' '] + ws[0] + tail;
      forall i | 0 <= i < |s|
        ensures s[i] == ' ' || ('0' <= s[i] <= '9' || 'A' <= s[i] <= 'Z' || 'a' <= s[i] <= 'z' || s[i] == '_')
      {
        if 1 <= i < 1 + |ws[0]| {
          assert s[i] == ws[0][i - 1];
        } else if i >= 1 + |ws[0]| {
          assert s[i] == tail[i - 1 - |ws[0]|];
        }
      }
    }
  }

  /** Separators inside a join, and the words' own chars. */
  lemma {:induction false} JoinEnds(ws: seq<string>)
    requires |ws| > 0 && PlainWords(ws)
    ensures |Join(ws, ' ')| > 0
    ensures Join(ws, ' ')[0] == ws[0][0]
    ensures Last(Join(ws, ' ')) == Last(Last(ws))
  {
    if |ws| > 1 {
      JoinEnds(ws[1..]);
      assert Last(ws[1..]) == Last(ws);
    }
  }

  /** Trimming the spaced words and splitting at spaces gives the words back. */
  lemma SplitTrimSpaced(ws: seq<string>)
    requires |ws| > 0 && PlainWords(ws)
    ensures Split(Trim(Spaced(ws)), ' ') == ws
  {
    var j := Join(ws, ' ');
    SpacedJoin(ws);
    JoinEnds(ws);
    assert ([' '] + j)[1..] == j;
    assert TrimStart([' '] + j) == TrimStart(j);
    assert !IsWhiteSpace(j[0]);
    assert TrimStart(j) == j;
    assert !IsWhiteSpace(Last(j));
    assert TrimEnd(j) == j;
    SplitJoin(ws, ' ');
  }

  // ---------------------------------------------------------------------
  // Long-mark expansion

  /** Without `ー` the expansion changes nothing. */
  lemma {:induction false} LongExpandNoMark(d: Dialect, s: string)
    requires LongMarkChar !in s
    ensures LongExpand(d, s) == s
  {
    if s != [] {
      LongExpandNoMark(d, s[1..]);
      if IsWordChar(s[0]) {
        var m := LongRun(s[1..]);
        assert s[1..1 + m] == [];
        assert Flatten(Repeat([' ', s[0]], 0)) == [];
        assert s[1 + m..] == s[1..];
      }
      assert [s[0]] + s[1..] == s;
    }
  }

  /** The expansion works left to right, so it can be cut where no run of
      marks is split. */
  lemma {:induction false} LongExpandAppend(d: Dialect, a: string, b: string)
    requires b == [] || b[0] != LongMarkChar
    ensures LongExpand(d, a + b) == LongExpand(d, a) + LongExpand(d, b)
    decreases |a|
  {
    var s := a + b;
    if a == [] {
      assert s == b;
    } else if !IsWordChar(a[0]) {
      assert s[1..] == a[1..] + b;
      LongExpandAppend(d, a[1..], b);
    } else {
      assert s[1..] == a[1..] + b;
      LongExpandAppend(d, a[1..][LongRun(a[1..])..], b);
      LongWordAppend(d, a[0], a[1..], b);
    }
  }

  /** The step of `LongExpandAppend` at a word char: its run of marks lies
      inside `a`, so cutting after the run is enough. */
  lemma LongWordAppend(d: Dialect, c: char, a: string, b: string)
    requires b == [] || b[0] != LongMarkChar
    requires var rest := a[LongRun(a)..]; LongExpand(d, rest + b) == LongExpand(d, rest) + LongExpand(d, b)
    ensures LongWord(d, c, a + b) == LongWord(d, c, a) + LongExpand(d, b)
  {
    RunCut(a, b);
  }

  /** A run of marks in `a` is not extended by a `b` that starts otherwise. */
  lemma RunCut(a: string, b: string)
    requires b == [] || b[0] != LongMarkChar
    ensures LongRun(a + b) == LongRun(a)
    ensures (a + b)[..LongRun(a)] == a[..LongRun(a)]
    ensures (a + b)[LongRun(a)..] == a[LongRun(a)..] + b
  {
    LongRunAppend(a, b);
  }

  lemma {:induction false} LongRunAppend(a: string, b: string)
    requires b == [] || b[0] != LongMarkChar
    ensures LongRun(a + b) == LongRun(a)
  {
    if a != [] && a[0] == LongMarkChar {
      assert (a + b)[1..] == a[1..] + b;
      LongRunAppend(a[1..], b);
    } else if a == [] {
      assert a + b == b;
    }
  }

  /** A word char followed by `m` marks becomes the char then ` c` repeated:
      `m` times in the current copy, `3m` times (the bytes of the run) in the
      older one. */
  lemma LongMarksRepeat(d: Dialect, w: char, m: nat)
    requires IsWordChar(w) && w != LongMarkChar
    ensures LongExpand(d, [w] + Repeat(LongMarkChar, m))
         == [w] + Flatten(Repeat([' ', w], if d == Current then m else 3 * m))
  {
    var s := [w] + Repeat(LongMarkChar, m);
    assert s[1..] == Repeat(LongMarkChar, m);
    LongRunAll(m);
    assert s[1..][..m] == Repeat(LongMarkChar, m);
    Utf8LenThreeByte(Repeat(LongMarkChar, m));
    assert s[1..][m..] == [];
    assert LongExpand(d, []) == [];
  }

  lemma {:induction false} LongRunAll(m: nat)
    ensures LongRun(Repeat(LongMarkChar, m)) == m
  {
    if m > 0 {
      assert Repeat(LongMarkChar, m)[1..] == Repeat(LongMarkChar, m - 1);
      LongRunAll(m - 1);
    }
  }

  /** ` w` repeated is the one-char word `w` spaced, repeated. */
  lemma {:induction false} RepeatSpaced(w: char, n: nat)
    ensures Flatten(Repeat([' ', w], n)) == Spaced(Repeat([w], n))
  {
    if n > 0 {
      assert Repeat([' ', w], n)[1..] == Repeat([' ', w], n - 1);
      assert Repeat([w], n)[1..] == Repeat([w], n - 1);
      RepeatSpaced(w, n - 1);
    }
  }

  // ---------------------------------------------------------------------
  // One mora

  /** The keys are kana without `ー`, their phonemes plain ASCII words, and
      no key is a punctuation string. */
  predicate KanaKeys(t: KanaTables)
  {
    && (forall k :: k in t.moras ==> forall i :: 0 <= i < |k| ==> IsKatakana(k[i]) && k[i] != LongMarkChar)
    && (forall k :: k in t.moras ==> PlainWords(MoraWords(t.moras[k])))
    && (forall a :: 0 <= a < |t.punctuations| ==>
          forall i :: 0 <= i < |t.punctuations[a]| ==> !IsKatakana(t.punctuations[a][i]))
  }

  /** Under `KanaKeys`, a text that starts with kana is neither a punctuation
      string nor made of punctuation chars. */
  lemma KanaIsNotPunctuation(t: KanaTables, text: string)
    requires KanaKeys(t) && |text| > 0 && IsKatakana(text[0])
    ensures text !in t.punctuations
    ensures !AllPunctuation(t.punctuations, text)
  {
    forall a | 0 <= a < |t.punctuations| ensures t.punctuations[a] != text && t.punctuations[a] != [text[0]] {
      if |t.punctuations[a]| == |text| {
        assert !IsKatakana(t.punctuations[a][0]);
      }
      if |t.punctuations[a]| == 1 {
        assert !IsKatakana(t.punctuations[a][0]);
      }
    }
  }

  /** Keys before `k` in the order are at least as long as `k` and differ
      from it, so they do not occur in `k` followed by marks. */
  lemma EarlierKeysAbsent(t: KanaTables, idx: nat, m: nat)
    requires ValidOrder(t) && KanaKeys(t) && idx < |t.order|
    ensures forall a :: 0 <= a < idx ==> !IsInfix(t.order[a], t.order[idx] + Repeat(LongMarkChar, m))
  {
    var k := t.order[idx];
    forall a | 0 <= a < idx ensures !IsInfix(t.order[a], k + Repeat(LongMarkChar, m)) {
      var p := t.order[a];
      assert p in t.moras && k in t.moras;
      Utf8LenThreeByte(p);
      Utf8LenThreeByte(k);
      assert Utf8Len(p) >= Utf8Len(k);
      LongerKeyAbsent(p, k, m);
    }
  }

  /** Text made of ASCII chars and marks holds no key. */
  lemma KeysAbsentFromAscii(t: KanaTables, text: string)
    requires ValidOrder(t) && KanaKeys(t)
    requires forall i :: 0 <= i < |text| ==> text[i] as int < 0x80 || text[i] == LongMarkChar
    ensures forall a :: 0 <= a < |t.order| ==> !IsInfix(t.order[a], text)
  {
    forall a | 0 <= a < |t.order| ensures !IsInfix(t.order[a], text) {
      var p := t.order[a];
      assert p in t.moras;
      assert IsKatakana(p[0]) && p[0] != LongMarkChar;
      FirstCharAbsent(p, text);
    }
  }

  /** The replacement text of a mora, followed by marks, is ASCII and marks. */
  lemma MoraTextAscii(p: MoraPhonemes, m: nat)
    requires PlainWords(MoraWords(p))
    ensures forall i :: 0 <= i < |MoraText(p) + Repeat(LongMarkChar, m)| ==>
      (MoraText(p) + Repeat(LongMarkChar, m))[i] as int < 0x80
      || (MoraText(p) + Repeat(LongMarkChar, m))[i] == LongMarkChar
  {
    MoraTextSpaced(p);
    SpacedChars(MoraWords(p));
  }

  /** Replacing along an order in which only the key at `idx` occurs, and
      whose later keys do not occur in that key's replacement. */
  lemma {:induction false} ReplaceOnlyAt(text: string, moras: map<string, MoraPhonemes>,
                                         order: seq<string>, idx: nat, rest: string)
    requires forall a :: 0 <= a < |order| ==> order[a] in moras && |order[a]| > 0
    requires idx < |order| && text == order[idx] + rest
    requires !IsInfix(order[idx], rest)
    requires forall a :: 0 <= a < idx ==> !IsInfix(order[a], text)
    requires forall a :: idx < a < |order| ==> !IsInfix(order[a], MoraText(moras[order[idx]]) + rest)
    ensures ReplaceMoras(text, moras, order) == MoraText(moras[order[idx]]) + rest
  {
    var k := order[idx];
    var rep := MoraText(moras[k]);
    var before := order[..idx];
    var after := order[idx + 1..];
    assert order == before + [k] + after;
    ReplaceMorasAppend(text, moras, before + [k], after);
    ReplaceMorasAppend(text, moras, before, [k]);
    ReplaceMorasAbsent(text, moras, before);
    assert text[..|k|] == k;
    assert text[|k|..] == rest;
    ReplaceAbsent(rest, k, rep);
    assert ReplaceMoras(text, moras, [k]) == Replace(text, k, rep);
    ReplaceMorasAbsent(rep + rest, moras, after);
  }

  /** A key followed by marks: the keys before it do not occur, the key
      itself becomes its phoneme text, and no later key occurs in that. */
  lemma ReplaceOneMora(t: KanaTables, k: string, m: nat)
    requires ValidOrder(t) && KanaKeys(t) && k in t.moras
    ensures ReplaceMoras(k + Repeat(LongMarkChar, m), t.moras, t.order)
         == MoraText(t.moras[k]) + Repeat(LongMarkChar, m)
  {
    var idx :| 0 <= idx < |t.order| && t.order[idx] == k;
    var marks := Repeat(LongMarkChar, m);
    EarlierKeysAbsent(t, idx, m);
    FirstCharAbsent(k, marks);
    MoraTextAscii(t.moras[k], m);
    KeysAbsentFromAscii(t, MoraText(t.moras[k]) + marks);
    ReplaceOnlyAt(k + marks, t.moras, t.order, idx, marks);
  }

  /** A single mora key becomes its consonant and vowel (or just its vowel):
      the longest-first replacement picks the key itself. */
  lemma SingleMora(d: Dialect, t: KanaTables, k: string)
    requires ValidOrder(t) && KanaKeys(t) && k in t.moras
    ensures KataToPhonemeList(d, t, k) == Ok(MoraWords(t.moras[k]))
    ensures KataToPhonemeListAsWritten(d, t, k) == Ok(MoraWords(t.moras[k]))
  {
    assert |k| > 0 by {
      var idx :| 0 <= idx < |t.order| && t.order[idx] == k;
    }
    assert IsKatakana(k[0]);
    KanaIsNotPunctuation(t, k);
    ConvertSingleMora(d, t, k);
  }

  /** The kana branch on a single mora gives its phonemes. */
  lemma ConvertSingleMora(d: Dialect, t: KanaTables, k: string)
    requires ValidOrder(t) && KanaKeys(t) && k in t.moras
    ensures Convert(d, t, k) == MoraWords(t.moras[k])
  {
    ReplaceOneMora(t, k, 0);
    assert k + Repeat(LongMarkChar, 0) == k;
    var ws := MoraWords(t.moras[k]);
    MoraTextSpaced(t.moras[k]);
    assert MoraText(t.moras[k]) + Repeat(LongMarkChar, 0) == Spaced(ws);
    SpacedChars(ws);
    LongExpandNoMark(d, Spaced(ws));
    SplitTrimSpaced(ws);
  }

  /** Spaced phonemes whose last is one char, followed by `m` marks: the
      phonemes, then that char once per counted mark. */
  lemma SpacedWithMarks(d: Dialect, ws: seq<string>, m: nat)
    requires |ws| > 0 && PlainWords(ws) && |Last(ws)| == 1
    ensures Split(Trim(LongExpand(d, Spaced(ws) + Repeat(LongMarkChar, m))), ' ')
         == ws + Repeat(Last(ws), if d == Current then m else 3 * m)
  {
    var v := Last(ws);
    var n := if d == Current then m else 3 * m;
    ExpandSpacedMarks(d, ws, m);
    var out := ws + Repeat(v, n);
    assert PlainWords(out) by {
      forall i | 0 <= i < |out| ensures PlainWord(out[i]) {
        if i >= |ws| {
          assert out[i] == v;
        }
      }
    }
    SplitTrimSpaced(out);
  }

  /** The expansion of spaced words ending in a one-char word and `m` marks:
      the last word repeated as further words. */
  lemma ExpandSpacedMarks(d: Dialect, ws: seq<string>, m: nat)
    requires |ws| > 0 && PlainWords(ws) && |Last(ws)| == 1
    ensures LongExpand(d, Spaced(ws) + Repeat(LongMarkChar, m))
         == Spaced(ws + Repeat(Last(ws), if d == Current then m else 3 * m))
  {
    var v := Last(ws);
    var w := v[0];
    var n := if d == Current then m else 3 * m;
    var init := ws[..|ws| - 1];
    var head := Spaced(init) + [' '];
    SpacedLast(ws);
    assert Spaced(ws) == head + [w];
    var marks := Repeat(LongMarkChar, m);
    assert Spaced(ws) + marks == head + ([w] + marks);
    ExpandAfterMarkFree(d, head, [w] + marks);
    assert PlainWord(v);
    LongMarksRepeat(d, w, m);
    assert v == [w];
    SpacedRepeatLast(ws, n);
  }

  /** A mark-free prefix is kept as it is. */
  lemma ExpandAfterMarkFree(d: Dialect, head: string, t: string)
    requires LongMarkChar !in head
    requires t == [] || t[0] != LongMarkChar
    ensures LongExpand(d, head + t) == head + LongExpand(d, t)
  {
    LongExpandAppend(d, head, t);
    LongExpandNoMark(d, head);
  }

  /** Repeating a one-char last word `n` times adds ` c` `n` times. */
  lemma SpacedRepeatLast(ws: seq<string>, n: nat)
    requires |ws| > 0 && |Last(ws)| == 1
    ensures Spaced(ws + Repeat(Last(ws), n)) == Spaced(ws) + Flatten(Repeat([' ', Last(ws)[0]], n))
  {
    var v := Last(ws);
    var w := v[0];
    RepeatSpaced(w, n);
    assert v == [w];
    assert Repeat([w], n) == Repeat(v, n);
    SpacedAppend(ws, Repeat(v, n));
  }

  /** Spaced words ending in a one-char word: a mark-free head, a space,
      then that char. */
  lemma SpacedLast(ws: seq<string>)
    requires |ws| > 0 && PlainWords(ws) && |Last(ws)| == 1
    ensures Spaced(ws) == Spaced(ws[..|ws| - 1]) + [' '] + [Last(ws)[0]]
    ensures LongMarkChar !in Spaced(ws[..|ws| - 1]) + [' ']
  {
    var v := Last(ws);
    var init := ws[..|ws| - 1];
    assert ws == init + [v];
    SpacedAppend(init, [v]);
    assert Spaced([v]) == [' '] + v + Spaced([]);
    assert v == [v[0]];
    var head := Spaced(init) + [' '];
    SpacedChars(init);
    forall i | 0 <= i < |head| ensures head[i] != LongMarkChar {
      if i < |Spaced(init)| {
        assert head[i] == Spaced(init)[i];
      }
    }
  }

  /** A mora followed by `m` marks: its phonemes, then its one-char vowel once
      per mark (current copy) or three times per mark (older copy). */
  lemma MoraWithLongMarks(d: Dialect, t: KanaTables, k: string, m: nat)
    requires ValidOrder(t) && KanaKeys(t) && k in t.moras
    requires |t.moras[k].vowel| == 1
    ensures KataToPhonemeList(d, t, k + Repeat(LongMarkChar, m))
         == Ok(MoraWords(t.moras[k]) + Repeat(t.moras[k].vowel, if d == Current then m else 3 * m))
    ensures KataToPhonemeListAsWritten(d, t, k + Repeat(LongMarkChar, m))
         == KataToPhonemeList(d, t, k + Repeat(LongMarkChar, m))
  {
    var text := k + Repeat(LongMarkChar, m);
    var p := t.moras[k];
    assert |k| > 0 by {
      var idx :| 0 <= idx < |t.order| && t.order[idx] == k;
    }
    assert text[0] == k[0] && IsKatakana(k[0]);
    KanaIsNotPunctuation(t, text);
    ReplaceOneMora(t, k, m);
    MoraTextSpaced(p);
    assert Last(MoraWords(p)) == p.vowel;
    SpacedWithMarks(d, MoraWords(p), m);
  }

  /** The current copy repeats the vowel once per mark: `カー` is `k a a`. */
  lemma LongMarkPerChar(t: KanaTables, k: string, m: nat)
    requires ValidOrder(t) && KanaKeys(t) && k in t.moras
    requires |t.moras[k].vowel| == 1
    ensures KataToPhonemeListAsWritten(Current, t, k + Repeat(LongMarkChar, m))
         == Ok(MoraWords(t.moras[k]) + Repeat(t.moras[k].vowel, m))
  {
    MoraWithLongMarks(Current, t, k, m);
  }

  /** The older copy counts the UTF-8 bytes of the run, three per mark:
      `カー` becomes `k a a a a`. */
  lemma LongMarkPerByte(t: KanaTables, k: string, m: nat)
    requires ValidOrder(t) && KanaKeys(t) && k in t.moras
    requires |t.moras[k].vowel| == 1
    ensures KataToPhonemeListAsWritten(Legacy, t, k + Repeat(LongMarkChar, m))
         == Ok(MoraWords(t.moras[k]) + Repeat(t.moras[k].vowel, 3 * m))
  {
    MoraWithLongMarks(Legacy, t, k, m);
  }
}
