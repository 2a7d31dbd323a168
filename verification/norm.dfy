/** Text normalisation: the wave-dash rewrite of `normalize_text`
    (sbv2_core/src/text.rs:412-418) and the punctuation table `REPLACE_MAP`
    (sbv2_core/src/norm.rs:4-55). The function that applies the table is
    not part of this model; only the table itself is. */
module Norm {
  import opened Seqs

  /** The long-vowel mark that the wave dashes become. */
  const LongMark: char := 'ー'

  /** `~`, FULLWIDTH TILDE and WAVE DASH. */
  predicate IsWaveDash(c: char)
  {
    c == '~' || c == '～' || c == '〜'
  }

  /** `str::replace` of one char by another char. */
  function ReplaceChar(s: string, c: char, d: char): string
  {
    Replace(s, [c], [d])
  }

  /** Replacing one char by another rewrites exactly the occurrences of that char. */
  lemma {:induction false} ReplaceCharPointwise(s: string, c: char, d: char)
    ensures |ReplaceChar(s, c, d)| == |s|
    ensures forall i :: 0 <= i < |s| ==>
      ReplaceChar(s, c, d)[i] == (if s[i] == c then d else s[i])
  {
    if s != [] {
      ReplaceCharPointwise(s[1..], c, d);
      assert s[..1] == [s[0]];
      assert s[1..] == s[|[c]|..];
    }
  }

  /** `normalize_text`: `~`, `～` and `〜` each replaced by `ー`, in that order. */
  function NormalizeText(text: string): (r: string)
    ensures |r| == |text|
    ensures forall i :: 0 <= i < |text| ==>
      r[i] == (if IsWaveDash(text[i]) then LongMark else text[i])
  {
    var t1 := ReplaceChar(text, '~', LongMark);
    var t2 := ReplaceChar(t1, '～', LongMark);
    ReplaceCharPointwise(text, '~', LongMark);
    ReplaceCharPointwise(t1, '～', LongMark);
    ReplaceCharPointwise(t2, '〜', LongMark);
    ReplaceChar(t2, '〜', LongMark)
  }

  /** Normalising twice is normalising once, and no wave dash survives. */
  lemma NormalizeIdempotent(text: string)
    ensures NormalizeText(NormalizeText(text)) == NormalizeText(text)
    ensures forall i :: 0 <= i < |text| ==> !IsWaveDash(NormalizeText(text)[i])
  {
  }

  /** `REPLACE_MAP`, lines 6-20: the full-width and ASCII stops, commas and ellipses. */
  const Stops: map<string, string> := map[
    "：" := ",", "；" := ",", "，" := ",", "。" := ".", "！" := "!", "？" := "?",
    "\n" := ".", "．" := ".", "…" := "...", "···" := "...", "・・・" := "...",
    "·" := ",", "・" := ",", "、" := ",", "$" := "."]

  /** Lines 21-35: quotation marks and brackets. */
  const Quotes: map<string, string> := map[
    "“" := "'", "”" := "'", "\"" := "'", "‘" := "'", "’" := "'",
    "（" := "'", "）" := "'", "(" := "'", ")" := "'", "《" := "'", "》" := "'",
    "【" := "'", "】" := "'", "[" := "'", "]" := "'"]

  /** Lines 37-50: the hyphen and dash variants left after NFKC, U+02D7 to U+2E3B. */
  const Dashes: map<string, string> := map[
    "˗" := "-", "‐" := "-", "‒" := "-", "–" := "-", "—" := "-", "―" := "-",
    "⁃" := "-", "−" := "-", "⎯" := "-", "⏤" := "-", "─" := "-", "━" := "-",
    "⸺" := "-", "⸻" := "-"]

  /** Lines 51-52: the corner brackets. */
  const Corners: map<string, string> := map["「" := "'", "」" := "'"]

  /** `REPLACE_MAP`: the pairs inserted in source order into one map, which is
      the right-biased union of the four groups (a later insert overwrites). */
  const ReplaceMap: map<string, string> := Stops + Quotes + Dashes + Corners

  /** The seven replacement strings. */
  const Images: set<string> := {",", ".", "!", "?", "...", "'", "-"}

  /** The first chars of the keys of each group; no two groups share one. */
  predicate StopFirst(c: char)
  {
    c == '：' || c == '；' || c == '，' || c == '。' || c == '！' || c == '？' || c == '\n' || c == '．' || c == '…' || c == '·' || c == '・' || c == '、' || c == '$'
  }

  predicate QuoteFirst(c: char)
  {
    c == '“' || c == '”' || c == '"' || c == '‘' || c == '’' || c == '（' || c == '）' || c == '(' || c == ')' || c == '《' || c == '》' || c == '【' || c == '】' || c == '[' || c == ']'
  }

  predicate DashFirst(c: char)
  {
    c == '˗' || c == '‐' || c == '‒' || c == '–' || c == '—' || c == '―' || c == '⁃' || c == '−' || c == '⎯' || c == '⏤' || c == '─' || c == '━' || c == '⸺' || c == '⸻'
  }

  predicate CornerFirst(c: char)
  {
    c == '「' || c == '」'
  }

  /** Every key of `m` is non-empty and its first char satisfies `p`. */
  predicate KeysStartWith(m: map<string, string>, p: char -> bool)
  {
    forall k :: k in m ==> |k| > 0 && p(k[0])
  }

  predicate KeysDisjoint(a: map<string, string>, b: map<string, string>)
  {
    forall k :: k in a ==> k !in b
  }

  lemma StopsStart()
    ensures KeysStartWith(Stops, StopFirst)
  {
  }

  lemma QuotesStart()
    ensures KeysStartWith(Quotes, QuoteFirst)
  {
  }

  lemma DashesStart()
    ensures KeysStartWith(Dashes, DashFirst)
  {
  }

  lemma CornersStart()
    ensures KeysStartWith(Corners, CornerFirst)
  {
  }

  /** Keys whose first chars come from disjoint classes are distinct. */
  lemma KeysApart(a: map<string, string>, b: map<string, string>, p: char -> bool, q: char -> bool)
    requires KeysStartWith(a, p) && KeysStartWith(b, q)
    requires forall c :: p(c) ==> !q(c)
    ensures KeysDisjoint(a, b)
  {
  }

  lemma StopsNotQuotes()
    ensures forall c :: StopFirst(c) ==> !QuoteFirst(c)
  {
  }

  lemma StopsKeysNotQuotes()
    ensures KeysDisjoint(Stops, Quotes)
  {
    StopsStart();
    QuotesStart();
    StopsNotQuotes();
    KeysApart(Stops, Quotes, StopFirst, QuoteFirst);
  }

  lemma StopsNotDashes()
    ensures forall c :: StopFirst(c) ==> !DashFirst(c)
  {
  }

  lemma StopsKeysNotDashes()
    ensures KeysDisjoint(Stops, Dashes)
  {
    StopsStart();
    DashesStart();
    StopsNotDashes();
    KeysApart(Stops, Dashes, StopFirst, DashFirst);
  }

  lemma StopsNotCorners()
    ensures forall c :: StopFirst(c) ==> !CornerFirst(c)
  {
  }

  lemma StopsKeysNotCorners()
    ensures KeysDisjoint(Stops, Corners)
  {
    StopsStart();
    CornersStart();
    StopsNotCorners();
    KeysApart(Stops, Corners, StopFirst, CornerFirst);
  }

  lemma QuotesNotDashes()
    ensures forall c :: QuoteFirst(c) ==> !DashFirst(c)
  {
  }

  lemma QuotesKeysNotDashes()
    ensures KeysDisjoint(Quotes, Dashes)
  {
    QuotesStart();
    DashesStart();
    QuotesNotDashes();
    KeysApart(Quotes, Dashes, QuoteFirst, DashFirst);
  }

  lemma QuotesNotCorners()
    ensures forall c :: QuoteFirst(c) ==> !CornerFirst(c)
  {
  }

  lemma QuotesKeysNotCorners()
    ensures KeysDisjoint(Quotes, Corners)
  {
    QuotesStart();
    CornersStart();
    QuotesNotCorners();
    KeysApart(Quotes, Corners, QuoteFirst, CornerFirst);
  }

  lemma DashesNotCorners()
    ensures forall c :: DashFirst(c) ==> !CornerFirst(c)
  {
  }

  lemma DashesKeysNotCorners()
    ensures KeysDisjoint(Dashes, Corners)
  {
    DashesStart();
    CornersStart();
    DashesNotCorners();
    KeysApart(Dashes, Corners, DashFirst, CornerFirst);
  }

  lemma StopsApart()
    ensures forall k :: k in Stops ==> k !in Quotes && k !in Dashes && k !in Corners
  {
    StopsKeysNotQuotes();
    StopsKeysNotDashes();
    StopsKeysNotCorners();
  }

  lemma QuotesApart()
    ensures forall k :: k in Quotes ==> k !in Dashes && k !in Corners
  {
    QuotesKeysNotDashes();
    QuotesKeysNotCorners();
  }

  lemma DashesApart()
    ensures forall k :: k in Dashes ==> k !in Corners
  {
    DashesKeysNotCorners();
  }

  /** No key is inserted twice, so every pair of the source survives in the
      table exactly as written. */
  lemma ReplaceMapByGroup()
    ensures forall k :: k in ReplaceMap <==> k in Stops || k in Quotes || k in Dashes || k in Corners
    ensures forall k :: k in Stops ==> ReplaceMap[k] == Stops[k]
    ensures forall k :: k in Quotes ==> ReplaceMap[k] == Quotes[k]
    ensures forall k :: k in Dashes ==> ReplaceMap[k] == Dashes[k]
    ensures forall k :: k in Corners ==> ReplaceMap[k] == Corners[k]
  {
    StopsApart();
    QuotesApart();
    DashesApart();
  }

  lemma ImagesAreNotKeys()
    ensures forall v :: v in Images ==> v !in Stops && v !in Quotes && v !in Dashes && v !in Corners
  {
    ImagesAreNotStops();
    ImagesAreNotQuotesOrDashes();
  }

  lemma ImagesAreNotStops()
    ensures forall v :: v in Images ==> v !in Stops
  {
  }

  lemma ImagesAreNotQuotesOrDashes()
    ensures forall v :: v in Images ==> v !in Quotes && v !in Dashes
  {
    ImagesAreNotQuotes();
    ImagesAreNotDashes();
  }

  lemma ImagesAreNotQuotes()
    ensures forall v :: v in Images ==> v !in Quotes
  {
  }

  lemma ImagesAreNotDashes()
    ensures forall v :: v in Images ==> v !in Dashes
  {
  }

  /** Every replacement is one of the seven images, and no image is itself a
      key, so one pass of the table is final. */
  lemma NoValueIsKey()
    ensures forall k :: k in ReplaceMap ==> ReplaceMap[k] in Images
    ensures forall k :: k in ReplaceMap ==> ReplaceMap[k] !in ReplaceMap
  {
    forall k | k in ReplaceMap
      ensures ReplaceMap[k] in Images && ReplaceMap[k] !in ReplaceMap
    {
      ImageOf(k);
      ImageIsNotKey(ReplaceMap[k]);
    }
  }

  lemma ImageOf(k: string)
    requires k in ReplaceMap
    ensures ReplaceMap[k] in Images
  {
    ReplaceMapByGroup();
    if k in Stops {
      StopsImages(k);
    } else if k in Quotes {
      QuotesImages(k);
    } else if k in Dashes {
      DashesImages(k);
    } else {
      CornersImages(k);
    }
  }

  lemma ImageIsNotKey(v: string)
    requires v in Images
    ensures v !in ReplaceMap
  {
    ImagesAreNotKeys();
  }

  lemma QuotesImages(k: string)
    requires k in Quotes
    ensures Quotes[k] == "'"
  {
  }

  lemma DashesImages(k: string)
    requires k in Dashes
    ensures Dashes[k] == "-"
  {
  }

  lemma CornersImages(k: string)
    requires k in Corners
    ensures Corners[k] == "'"
  {
  }

  lemma StopsImages(k: string)
    requires k in Stops
    ensures Stops[k] in Images
  {
  }

  /** The fourteen hyphen and dash variants. */
  const DashVariants: seq<string> :=
    ["˗", "‐", "‒", "–", "—", "―", "⁃", "−", "⎯", "⏤", "─", "━", "⸺", "⸻"]

  /** All fourteen dash variants become U+002D HYPHEN-MINUS. */
  lemma DashesBecomeHyphenMinus()
    ensures |DashVariants| == 14
    ensures forall k :: k in DashVariants ==> k in ReplaceMap && ReplaceMap[k] == "-"
  {
    ReplaceMapByGroup();
    assert forall k :: k in DashVariants ==> k in Dashes && Dashes[k] == "-";
  }

  lemma EllipsesBecomeThreeDots()
    ensures forall k :: k in ["…", "···", "・・・"] ==> k in ReplaceMap && ReplaceMap[k] == "..."
  {
    ReplaceMapByGroup();
    assert forall k :: k in ["…", "···", "・・・"] ==> k in Stops && Stops[k] == "...";
  }

  const QuoteKeys: seq<string> :=
    ["“", "”", "\"", "‘", "’", "（", "）", "(", ")", "《", "》", "【", "】", "[", "]", "「", "」"]

  lemma QuotesAndBracketsBecomeApostrophe()
    ensures forall k :: k in QuoteKeys ==> k in ReplaceMap && ReplaceMap[k] == "'"
  {
    ReplaceMapByGroup();
    QuoteKeysGrouped();
    forall k | k in QuoteKeys ensures k in ReplaceMap && ReplaceMap[k] == "'" {
      if k in Quotes {
        QuotesImages(k);
      } else {
        CornersImages(k);
      }
    }
  }

  lemma QuoteKeysGrouped()
    ensures forall k :: k in QuoteKeys ==> k in Quotes || k in Corners
  {
  }

  lemma CommasAndPeriods()
    ensures forall k :: k in ["：", "；", "，", "·", "・", "、"] ==> k in ReplaceMap && ReplaceMap[k] == ","
    ensures forall k :: k in ["。", "．", "\n", "$"] ==> k in ReplaceMap && ReplaceMap[k] == "."
  {
    ReplaceMapByGroup();
    StopsCommas();
    StopsPeriods();
  }

  lemma StopsCommas()
    ensures forall k :: k in ["：", "；", "，", "·", "・", "、"] ==> k in Stops && Stops[k] == ","
  {
  }

  lemma StopsPeriods()
    ensures forall k :: k in ["。", "．", "\n", "$"] ==> k in Stops && Stops[k] == "."
  {
  }

  /** The two three-dot keys are each three copies of a one-char key, and the
      one-char images concatenated differ from the three-char image: an applier
      that tried the one-char keys first would turn `···` into `,,,`. */
  lemma MultiCharKeysShadowOneCharKeys()
    ensures "···" == "·" + "·" + "·" && "···" in ReplaceMap && "·" in ReplaceMap
    ensures ReplaceMap["·"] + ReplaceMap["·"] + ReplaceMap["·"] != ReplaceMap["···"]
    ensures "・・・" == "・" + "・" + "・" && "・・・" in ReplaceMap && "・" in ReplaceMap
    ensures ReplaceMap["・"] + ReplaceMap["・"] + ReplaceMap["・"] != ReplaceMap["・・・"]
  {
    ReplaceMapByGroup();
    assert Stops["·"] == "," && Stops["・"] == ",";
    assert Stops["···"] == "..." && Stops["・・・"] == "...";
    assert ("," + "," + ",")[0] != "..."[0];
  }
}
