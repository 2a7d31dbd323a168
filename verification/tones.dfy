/** Tones from prosody tokens: `fix_phone_tone` and `g2phone_tone_wo_punct`
    (sbv2_core/src/jtalk.rs:81-106, 300-332; sbv2_core/src/text.rs:86-111, 322-354). */
module Tones {
  import opened Wrappers
  import opened Seqs
  import opened Prosody

  datatype PhoneTone = PhoneTone(phone: string, tone: int)

  function Phones(ps: seq<PhoneTone>): (r: seq<string>)
    ensures |r| == |ps|
    ensures forall i :: 0 <= i < |ps| ==> r[i] == ps[i].phone
  {
    seq(|ps|, i requires 0 <= i < |ps| => ps[i].phone)
  }

  function ToneList(ps: seq<PhoneTone>): (r: seq<int>)
    ensures |r| == |ps|
    ensures forall i :: 0 <= i < |ps| ==> r[i] == ps[i].tone
  {
    seq(|ps|, i requires 0 <= i < |ps| => ps[i].tone)
  }

  lemma PhonesAppend(a: seq<PhoneTone>, b: seq<PhoneTone>)
    ensures Phones(a + b) == Phones(a) + Phones(b)
  {
  }

  /** The distinct tones of a phrase (the `HashSet` of line 82). */
  function ToneSet(ps: seq<PhoneTone>): set<int>
  {
    set i | 0 <= i < |ps| :: ps[i].tone
  }

  /** Every tone is 0 or 1. */
  predicate ToneBits(ps: seq<PhoneTone>)
  {
    forall i :: 0 <= i < |ps| ==> 0 <= ps[i].tone <= 1
  }

  /** The rewrite of a {-1, 0} phrase: -1 becomes 0 in both copies; 0 becomes
      1 in the current copy and stays 0 in the older one. */
  function Relabel(d: Dialect, ps: seq<PhoneTone>): (r: seq<PhoneTone>)
    ensures |r| == |ps|
    ensures forall i :: 0 <= i < |ps| ==> r[i].phone == ps[i].phone
  {
    seq(|ps|, i requires 0 <= i < |ps| =>
      PhoneTone(ps[i].phone, if ps[i].tone == -1 then 0 else if d == Current then 1 else ps[i].tone))
  }

  /** `fix_phone_tone`: a phrase's tones must form {0}, {0,1} or {-1,0}. */
  function FixPhoneTone(d: Dialect, ps: seq<PhoneTone>): (r: Result<seq<PhoneTone>>)
    ensures r.Ok? ==> Phones(r.value) == Phones(ps) && ToneBits(r.value)
  {
    var values := ToneSet(ps);
    assert forall i :: 0 <= i < |ps| ==> ps[i].tone in values;
    if |values| == 1 then
      if values == {0} then Ok(ps) else Err(Panic("single tone value is not 0"))
    else if |values| == 2 then
      if values == {0, 1} then Ok(ps)
      else if values == {-1, 0} then Ok(Relabel(d, ps))
      else Err(ValueError("Invalid tone values 0"))
    else Err(ValueError("Invalid tone values 1"))
  }

  /** The set rule: exactly {0}, {0,1} and {-1,0} are accepted; {0} and {0,1}
      pass unchanged; {-1,0} becomes 0/1 in the current copy and all 0 in the
      older one; a single other value fails the assertion; an empty phrase,
      another pair or three or more values is a `ValueError`. */
  lemma FixPhoneToneRule(d: Dialect, ps: seq<PhoneTone>)
    ensures var r := FixPhoneTone(d, ps);
      && (r.Ok? <==> ToneSet(ps) == {0} || ToneSet(ps) == {0, 1} || ToneSet(ps) == {-1, 0})
      && (ToneSet(ps) == {0} || ToneSet(ps) == {0, 1} ==> r == Ok(ps))
      && (ToneSet(ps) == {-1, 0} && d == Current ==>
            r.Ok? && forall i :: 0 <= i < |ps| ==> r.value[i].tone == ps[i].tone + 1)
      && (ToneSet(ps) == {-1, 0} && d == Legacy ==>
            r.Ok? && forall i :: 0 <= i < |ps| ==> r.value[i].tone == 0)
      && (r.Err? && r.error.Panic? <==> |ToneSet(ps)| == 1 && ToneSet(ps) != {0})
      && (r.Err? && !r.error.Panic? ==>
            r.error == ValueError(if |ToneSet(ps)| == 2 then "Invalid tone values 0" else "Invalid tone values 1"))
  {
    var values := ToneSet(ps);
    assert forall i :: 0 <= i < |ps| ==> ps[i].tone in values;
  }

  /** An empty phrase is rejected. */
  lemma EmptyPhraseRejected(d: Dialect)
    ensures FixPhoneTone(d, []) == Err(ValueError("Invalid tone values 1"))
  {
    assert ToneSet([]) == {};
  }

  /** The tokens that close a phrase. */
  predicate IsBoundary(t: string)
  {
    t == "$" || t == "?" || t == "_" || t == "#"
  }

  /** The phoneme pushed for a non-mark token: `cl` is written `q`. */
  function Voice(t: string): string
  {
    if t == "cl" then "q" else t
  }

  /** `g2phone_tone_wo_punct` from token `i` on, with the phonemes emitted so far
      (`done`), the open phrase and the tone counter. */
  function Scan(d: Dialect, tokens: seq<string>, i: nat, done: seq<PhoneTone>,
                phrase: seq<PhoneTone>, tone: int): Result<seq<PhoneTone>>
    requires i <= |tokens|
    decreases |tokens| - i, 1
  {
    if i == |tokens| then Ok(done) else ScanToken(d, tokens, i, done, phrase, tone)
  }

  /** One token of the loop: `^` may only come first; a boundary fixes and
      emits the open phrase (an end mark only as the last token); brackets
      move the tone; any other token joins the phrase. */
  function ScanToken(d: Dialect, tokens: seq<string>, i: nat, done: seq<PhoneTone>,
                     phrase: seq<PhoneTone>, tone: int): Result<seq<PhoneTone>>
    requires i < |tokens|
    decreases |tokens| - i, 0
  {
    var t := tokens[i];
    if t == "^" then
      if i != 0 then Err(Panic("^ after the start")) else Scan(d, tokens, i + 1, done, phrase, tone)
    else if IsBoundary(t) then
      var fixed :- FixPhoneTone(d, phrase);
      if (t == "$" || t == "?") && i != |tokens| - 1 then Err(Panic("end mark before the end"))
      else Scan(d, tokens, i + 1, done + fixed, [], 0)
    else if t == "[" then Scan(d, tokens, i + 1, done, phrase, tone + 1)
    else if t == "]" then Scan(d, tokens, i + 1, done, phrase, tone - 1)
    else Scan(d, tokens, i + 1, done, phrase + [PhoneTone(Voice(t), tone)], tone)
  }

  /** `g2phone_tone_wo_punct`: phonemes with tones, without punctuation. A
      prosody failure is passed on. On success every tone is 0 or 1, and the
      phonemes are the prosody tokens that are not marks (`cl` written `q`)
      up to the last phrase boundary: a phrase left open at the end is
      dropped. */
  function G2PhoneToneWoPunct(d: Dialect, labels: seq<Label>): (r: Result<seq<PhoneTone>>)
    ensures G2pProsody(d, labels).Err? ==> r == Err(G2pProsody(d, labels).error)
    ensures r.Ok? ==> G2pProsody(d, labels).Ok?
    ensures r.Ok? ==> ToneBits(r.value)
    ensures r.Ok? ==> var tokens := G2pProsody(d, labels).value;
      Phones(r.value) == Voiced(tokens[..Cut(tokens)])
  {
    var tokens :- G2pProsody(d, labels);
    ScanFromStart(d, tokens);
    Scan(d, tokens, 0, [], [], 0)
  }

  /** Every emitted tone is 0 or 1. */
  lemma {:induction false} ScanToneBits(d: Dialect, tokens: seq<string>, i: nat, done: seq<PhoneTone>,
                                        phrase: seq<PhoneTone>, tone: int)
    requires i <= |tokens|
    requires ToneBits(done)
    requires Scan(d, tokens, i, done, phrase, tone).Ok?
    ensures ToneBits(Scan(d, tokens, i, done, phrase, tone).value)
    decreases |tokens| - i
  {
    if i < |tokens| {
      var t := tokens[i];
      if t == "^" {
        ScanToneBits(d, tokens, i + 1, done, phrase, tone);
      } else if IsBoundary(t) {
        var fixed := FixPhoneTone(d, phrase).value;
        assert ToneBits(done + fixed);
        ScanToneBits(d, tokens, i + 1, done + fixed, [], 0);
      } else if t == "[" {
        ScanToneBits(d, tokens, i + 1, done, phrase, tone + 1);
      } else if t == "]" {
        ScanToneBits(d, tokens, i + 1, done, phrase, tone - 1);
      } else {
        ScanToneBits(d, tokens, i + 1, done, phrase + [PhoneTone(Voice(t), tone)], tone);
      }
    }
  }

  /** The `^` and end-mark assertions: a successful scan saw `^` only at index 0
      and `$`/`?` only at the last index. */
  lemma {:induction false} ScanMarksPlaced(d: Dialect, tokens: seq<string>, i: nat, done: seq<PhoneTone>,
                                           phrase: seq<PhoneTone>, tone: int)
    requires i <= |tokens|
    requires Scan(d, tokens, i, done, phrase, tone).Ok?
    ensures forall k :: i <= k < |tokens| && tokens[k] == "^" ==> k == 0
    ensures forall k :: i <= k < |tokens| && (tokens[k] == "$" || tokens[k] == "?") ==> k == |tokens| - 1
    decreases |tokens| - i
  {
    if i < |tokens| {
      var t := tokens[i];
      if t == "^" {
        ScanMarksPlaced(d, tokens, i + 1, done, phrase, tone);
      } else if IsBoundary(t) {
        var fixed := FixPhoneTone(d, phrase).value;
        ScanMarksPlaced(d, tokens, i + 1, done + fixed, [], 0);
      } else if t == "[" {
        ScanMarksPlaced(d, tokens, i + 1, done, phrase, tone + 1);
      } else if t == "]" {
        ScanMarksPlaced(d, tokens, i + 1, done, phrase, tone - 1);
      } else {
        ScanMarksPlaced(d, tokens, i + 1, done, phrase + [PhoneTone(Voice(t), tone)], tone);
      }
    }
  }

  /** Length of the prefix that ends with the last phrase boundary (0 if none). */
  function Cut(ts: seq<string>): (c: nat)
    ensures c <= |ts|
    ensures c > 0 ==> IsBoundary(ts[c - 1])
    ensures forall k :: c <= k < |ts| ==> !IsBoundary(ts[k])
  {
    if ts == [] then 0
    else
      var c := Cut(ts[1..]);
      assert forall k :: c + 1 <= k < |ts| ==> ts[k] == ts[1..][k - 1];
      if c > 0 then c + 1 else if IsBoundary(ts[0]) then 1 else 0
  }

  /** The phonemes of the non-mark tokens, `cl` written `q`. */
  function Voiced(ts: seq<string>): seq<string>
  {
    if ts == [] then [] else (if IsMark(ts[0]) then [] else [Voice(ts[0])]) + Voiced(ts[1..])
  }

  lemma {:induction false} VoicedAppend(a: seq<string>, b: seq<string>)
    ensures Voiced(a + b) == Voiced(a) + Voiced(b)
  {
    if a == [] {
      assert a + b == b;
    } else {
      assert (a + b)[1..] == a[1..] + b;
      VoicedAppend(a[1..], b);
    }
  }

  /** The phonemes the boundaries in `ts` flush when `pending` is the open phrase. */
  function Flushed(ts: seq<string>, pending: seq<string>): seq<string>
  {
    if ts == [] then []
    else if IsBoundary(ts[0]) then pending + Flushed(ts[1..], [])
    else if IsMark(ts[0]) then Flushed(ts[1..], pending)
    else Flushed(ts[1..], pending + [Voice(ts[0])])
  }

  /** What a successful scan returns, phoneme by phoneme: what was emitted
      before plus what the remaining boundaries flush. */
  lemma {:induction false} ScanPhones(d: Dialect, tokens: seq<string>, i: nat, done: seq<PhoneTone>,
                                      phrase: seq<PhoneTone>, tone: int)
    requires i <= |tokens|
    requires Scan(d, tokens, i, done, phrase, tone).Ok?
    ensures Phones(Scan(d, tokens, i, done, phrase, tone).value) == Phones(done) + Flushed(tokens[i..], Phones(phrase))
    decreases |tokens| - i
  {
    if i == |tokens| {
      assert Phones(done) + [] == Phones(done);
    } else {
      var t := tokens[i];
      assert tokens[i..][1..] == tokens[i + 1..];
      if t == "^" {
        ScanPhones(d, tokens, i + 1, done, phrase, tone);
      } else if IsBoundary(t) {
        var fixed := FixPhoneTone(d, phrase).value;
        ScanPhones(d, tokens, i + 1, done + fixed, [], 0);
        PhonesAppend(done, fixed);
      } else if t == "[" {
        ScanPhones(d, tokens, i + 1, done, phrase, tone + 1);
      } else if t == "]" {
        ScanPhones(d, tokens, i + 1, done, phrase, tone - 1);
      } else {
        ScanPhones(d, tokens, i + 1, done, phrase + [PhoneTone(Voice(t), tone)], tone);
        PhonesAppend(phrase, [PhoneTone(Voice(t), tone)]);
        assert Phones([PhoneTone(Voice(t), tone)]) == [Voice(t)];
      }
    }
  }

  /** Reference: the boundaries flush exactly the voiced tokens up to the last
      boundary, after the open phrase; nothing when there is no boundary. */
  lemma {:induction false} FlushedUpToCut(ts: seq<string>, pending: seq<string>)
    ensures Flushed(ts, pending) == if Cut(ts) > 0 then pending + Voiced(ts[..Cut(ts)]) else []
  {
    if ts != [] {
      var t := ts[0];
      var c' := Cut(ts[1..]);
      assert [t][1..] == [];
      if c' > 0 {
        assert ts[..c' + 1] == [t] + ts[1..][..c'];
        VoicedAppend([t], ts[1..][..c']);
      } else if IsBoundary(t) {
        assert ts[..1] == [t];
      }
      if IsBoundary(t) {
        FlushedUpToCut(ts[1..], []);
      } else if IsMark(t) {
        FlushedUpToCut(ts[1..], pending);
      } else {
        FlushedUpToCut(ts[1..], pending + [Voice(t)]);
      }
    }
  }

  /** A scan from the start of the token list returns tones 0 or 1, and
      exactly the voiced tokens up to the last phrase boundary: phonemes
      after it are never emitted. */
  lemma ScanFromStart(d: Dialect, tokens: seq<string>)
    ensures var s := Scan(d, tokens, 0, [], [], 0);
      s.Ok? ==> ToneBits(s.value) && Phones(s.value) == Voiced(tokens[..Cut(tokens)])
  {
    var s := Scan(d, tokens, 0, [], [], 0);
    if s.Ok? {
      ScanToneBits(d, tokens, 0, [], [], 0);
      ScanPhones(d, tokens, 0, [], [], 0);
      assert tokens[0..] == tokens;
      assert Phones([]) == [] && [] + Flushed(tokens, []) == Flushed(tokens, []);
      FlushedUpToCut(tokens, []);
      if Cut(tokens) == 0 {
        assert tokens[..0] == [];
        assert Voiced([]) == [];
      } else {
        assert [] + Voiced(tokens[..Cut(tokens)]) == Voiced(tokens[..Cut(tokens)]);
      }
    }
  }

  /** Number of `[` minus number of `]` among tokens `i` to `j - 1`. */
  function Depth(tokens: seq<string>, i: nat, j: nat): int
    requires i <= j <= |tokens|
    decreases j - i
  {
    if j == i then 0 else Depth(tokens, i, j - 1) + Step(tokens[j - 1])
  }

  /** Reference for a stretch without `^` or boundaries: each non-mark token
      among tokens `i` to `j - 1` becomes its phoneme, with the starting tone
      plus the brackets before it. */
  function Raw(tokens: seq<string>, i: nat, j: nat, tone: int): seq<PhoneTone>
    requires i <= j <= |tokens|
    decreases j - i
  {
    if j == i then [] else Raw(tokens, i, j - 1, tone) + Pushed(tokens[j - 1], tone + Depth(tokens, i, j - 1))
  }

  /** The effect of one token inside a phrase on the open phrase and the tone. */
  function Pushed(t: string, tone: int): seq<PhoneTone>
  {
    if IsMark(t) then [] else [PhoneTone(Voice(t), tone)]
  }

  function Step(t: string): int
  {
    if t == "[" then 1 else if t == "]" then -1 else 0
  }

  lemma ScanInPhraseStep(d: Dialect, tokens: seq<string>, j: nat, done: seq<PhoneTone>,
                         phrase: seq<PhoneTone>, tone: int)
    requires j < |tokens|
    requires tokens[j] != "^" && !IsBoundary(tokens[j])
    ensures Scan(d, tokens, j, done, phrase, tone)
         == Scan(d, tokens, j + 1, done, phrase + Pushed(tokens[j], tone), tone + Step(tokens[j]))
  {
    if IsMark(tokens[j]) {
      assert phrase + [] == phrase;
    }
  }

  lemma ScanArgs(d: Dialect, tokens: seq<string>, i: nat, done: seq<PhoneTone>,
                 p: seq<PhoneTone>, t: int, q: seq<PhoneTone>, u: int)
    requires i <= |tokens| && p == q && t == u
    ensures Scan(d, tokens, i, done, p, t) == Scan(d, tokens, i, done, q, u)
  {
  }

  /** Tokens `i` to `j - 1` neither start the utterance nor close a phrase. */
  predicate InPhrase(tokens: seq<string>, i: nat, j: nat)
    requires i <= j <= |tokens|
  {
    forall k :: i <= k < j ==> tokens[k] != "^" && !IsBoundary(tokens[k])
  }

  /** One more token of a stretch, given the stretch before it. */
  lemma PhraseExtend(d: Dialect, tokens: seq<string>, i: nat, j: nat,
                     done: seq<PhoneTone>, phrase: seq<PhoneTone>, tone: int)
    requires i < j <= |tokens| && tokens[j - 1] != "^" && !IsBoundary(tokens[j - 1])
    requires Scan(d, tokens, i, done, phrase, tone)
          == Scan(d, tokens, j - 1, done, phrase + Raw(tokens, i, j - 1, tone), tone + Depth(tokens, i, j - 1))
    ensures Scan(d, tokens, i, done, phrase, tone)
         == Scan(d, tokens, j, done, phrase + Raw(tokens, i, j, tone), tone + Depth(tokens, i, j))
  {
    var r1 := Raw(tokens, i, j - 1, tone);
    var t1 := tone + Depth(tokens, i, j - 1);
    ScanInPhraseStep(d, tokens, j - 1, done, phrase + r1, t1);
    var pu := Pushed(tokens[j - 1], t1);
    assert Raw(tokens, i, j, tone) == r1 + pu;
    assert phrase + r1 + pu == phrase + (r1 + pu);
    ScanArgs(d, tokens, j, done, phrase + r1 + pu, t1 + Step(tokens[j - 1]),
             phrase + Raw(tokens, i, j, tone), tone + Depth(tokens, i, j));
  }

  /** Inside a phrase each phoneme takes the tone the brackets before it give:
      `[` adds one, `]` takes one away, counting from the phrase start. */
  lemma {:induction false} ScanWithinPhrase(d: Dialect, tokens: seq<string>, i: nat, j: nat,
                                            done: seq<PhoneTone>, phrase: seq<PhoneTone>, tone: int)
    requires i <= j <= |tokens| && InPhrase(tokens, i, j)
    ensures Scan(d, tokens, i, done, phrase, tone)
         == Scan(d, tokens, j, done, phrase + Raw(tokens, i, j, tone), tone + Depth(tokens, i, j))
    decreases j - i
  {
    var pj := phrase + Raw(tokens, i, j, tone);
    var tj := tone + Depth(tokens, i, j);
    if i == j {
      assert pj == phrase + [] == phrase;
      ScanArgs(d, tokens, i, done, phrase, tone, pj, tj);
    } else {
      assert InPhrase(tokens, i, j - 1) && tokens[j - 1] != "^" && !IsBoundary(tokens[j - 1]);
      ScanWithinPhrase(d, tokens, i, j - 1, done, phrase, tone);
      PhraseExtend(d, tokens, i, j, done, phrase, tone);
    }
  }
}
