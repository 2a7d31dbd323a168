/** The voice-model holder (`TTSModelHolder`, crates/sbv2_core/src/tts.rs):
    an ordered list of voices, each with its style table, an ONNX session
    when the voice is resident, and its model bytes when a residency cap is
    set. The session itself is opaque and is recorded as `resident`; building
    it, decoding the style JSON, reading an AIVMX file's metadata and
    unpacking a `.sbv2` archive are functions in a `Runtime` value. Every
    operation returns the holder as it stands afterwards next to its result,
    since some operations change the list before they fail. */
module ModelHolder {
  import opened Wrappers
  import opened Seqs
  import opened Arrays
  import opened Style
  import opened Archive

  /** A `TTSModel`: `vits2.is_some()` is `resident`. */
  datatype Entry = Entry(ident: string, resident: bool, bytes: Option<Bytes>, style: Matrix<real>)

  datatype Holder = Holder(models: seq<Entry>, maxLoaded: Option<nat>)

  datatype Runtime = Runtime(
    session: Bytes -> Result<()>,
    styleJson: Bytes -> Result<StyleData>,
    aivmStyle: Bytes -> Result<Option<Matrix<real>>>,
    untar: Bytes -> Result<seq<TarEntry>>)

  /** The holder after an operation, and what the operation returned. */
  datatype Step<T> = Step(holder: Holder, result: Result<T>)

  // ------------------------------------------------------------- queries

  /** `models()`: the idents in list order. */
  function Idents(models: seq<Entry>): (r: seq<string>)
    ensures |r| == |models| && forall i :: 0 <= i < |models| ==> r[i] == models[i].ident
  {
    seq(|models|, i requires 0 <= i < |models| => models[i].ident)
  }

  /** The position of the first entry with `ident`, as `iter().find` sees it. */
  function IndexOf(models: seq<Entry>, ident: string): (r: Option<nat>)
    ensures r.Some? ==> r.value < |models| && models[r.value].ident == ident &&
                        forall j :: 0 <= j < r.value ==> models[j].ident != ident
    ensures r.None? <==> forall j :: 0 <= j < |models| ==> models[j].ident != ident
  {
    if models == [] then None
    else if models[0].ident == ident then Some(0)
    else match IndexOf(models[1..], ident)
      case None => None
      case Some(k) => Some(k + 1)
  }

  function ResidentCount(models: seq<Entry>): (r: nat)
    ensures r <= |models|
  {
    if models == [] then 0 else (if models[0].resident then 1 else 0) + ResidentCount(models[1..])
  }

  lemma {:induction false} ResidentCountAppend(a: seq<Entry>, b: seq<Entry>)
    ensures ResidentCount(a + b) == ResidentCount(a) + ResidentCount(b)
  {
    if a == [] {
      assert a + b == b;
    } else {
      assert (a + b)[1..] == a[1..] + b;
      ResidentCountAppend(a[1..], b);
    }
  }

  /** `find_model`: the first entry with `ident`; the list is not changed. */
  function Find(h: Holder, ident: string): (r: Result<Entry>)
    ensures r.Err? <==> forall j :: 0 <= j < |h.models| ==> h.models[j].ident != ident
    ensures r.Err? ==> r.error == ModelNotFoundError(ident)
    ensures r.Ok? ==> r.value in h.models && r.value.ident == ident
  {
    match IndexOf(h.models, ident)
    case None => Err(ModelNotFoundError(ident))
    case Some(i) => Ok(h.models[i])
  }

  /** `get_style_vector`: the blend over the voice's own style table. */
  function GetStyleVector(h: Holder, ident: string, styleId: int, weight: real): (r: Result<seq<real>>)
    ensures Find(h, ident).Err? ==> r == Err(ModelNotFoundError(ident))
    ensures Find(h, ident).Ok? ==> r == StyleVector(Find(h, ident).value.style, styleId, weight)
  {
    var e :- Find(h, ident);
    StyleVector(e.style, styleId, weight)
  }

  // -------------------------------------------------------------- unload

  /** `unload`: removes the first entry with `ident` and says whether there was one. */
  function Unload(h: Holder, ident: string): (r: (Holder, bool))
    ensures r.1 <==> IndexOf(h.models, ident).Some?
    ensures !r.1 ==> r.0 == h
    ensures r.1 ==> var i := IndexOf(h.models, ident).value;
      r.0 == h.(models := h.models[..i] + h.models[i + 1..])
  {
    match IndexOf(h.models, ident)
    case None => (h, false)
    case Some(i) => (h.(models := h.models[..i] + h.models[i + 1..]), true)
  }

  // ---------------------------------------------------------------- load

  /** A new voice gets a session unless a cap is set and already reached. */
  predicate LoadsSession(h: Holder)
  {
    h.maxLoaded.None? || ResidentCount(h.models) < h.maxLoaded.value
  }

  /** The model bytes are kept only when a cap is set. */
  function KeptBytes(h: Holder, modelBytes: Bytes): Option<Bytes>
  {
    if h.maxLoaded.Some? then Some(modelBytes) else None
  }

  /** The crate's `load_style` on the JSON bytes: decoding, then the shape check. */
  function LoadStyleBytes(rt: Runtime, styleBytes: Bytes): Result<Matrix<real>>
  {
    var d :- rt.styleJson(styleBytes);
    LoadStyle(d)
  }

  /** The entry `load` pushes, fields evaluated in the order written: the
      session (only when it is loaded), then the style table. */
  function NewEntry(rt: Runtime, h: Holder, ident: string, styleBytes: Bytes, modelBytes: Bytes): (r: Result<Entry>)
    ensures r.Err? <==> (LoadsSession(h) && rt.session(modelBytes).Err?) || LoadStyleBytes(rt, styleBytes).Err?
    ensures r.Ok? ==> r.value == Entry(ident, LoadsSession(h), KeptBytes(h, modelBytes), LoadStyleBytes(rt, styleBytes).value)
  {
    var _ :- if LoadsSession(h) then rt.session(modelBytes) else Ok(());
    var style :- LoadStyleBytes(rt, styleBytes);
    Ok(Entry(ident, LoadsSession(h), KeptBytes(h, modelBytes), style))
  }

  /** `load`: nothing happens for a known ident; otherwise the new entry is
      appended, or on a decoding failure the list stays as it was. */
  function Load(rt: Runtime, h: Holder, ident: string, styleBytes: Bytes, modelBytes: Bytes): (r: Step<()>)
    ensures r.result.Err? ==> r.holder == h
    ensures IndexOf(h.models, ident).Some? ==> r == Step(h, Ok(()))
    ensures IndexOf(h.models, ident).None? ==>
      (r.result.Err? <==> NewEntry(rt, h, ident, styleBytes, modelBytes).Err?)
    ensures IndexOf(h.models, ident).None? && r.result.Ok? ==>
      && r.holder.maxLoaded == h.maxLoaded
      && |r.holder.models| == |h.models| + 1
      && r.holder.models[..|h.models|] == h.models
      && Last(r.holder.models).ident == ident
      && (Last(r.holder.models).resident <==> h.maxLoaded.None? || ResidentCount(h.models) < h.maxLoaded.value)
      && (Last(r.holder.models).bytes.Some? <==> h.maxLoaded.Some?)
  {
    if IndexOf(h.models, ident).Some? then Step(h, Ok(()))
    else match NewEntry(rt, h, ident, styleBytes, modelBytes)
      case Err(e) => Step(h, Err(e))
      case Ok(entry) =>
        var models := h.models + [entry];
        assert models[..|h.models|] == h.models;
        Step(h.(models := models), Ok(()))
  }

  /** `load_sbv2file`: the archive is read first, so a broken archive fails
      even for a known ident. */
  function LoadSbv2File(rt: Runtime, h: Holder, ident: string, sbv2Bytes: Bytes): (r: Step<()>)
    ensures r.result.Err? ==> r.holder == h
    ensures rt.untar(sbv2Bytes).Ok? && ParseSbv2File(rt.untar(sbv2Bytes).value).Ok? ==>
      var (style, model) := ParseSbv2File(rt.untar(sbv2Bytes).value).value;
      r == Load(rt, h, ident, style, model)
    ensures rt.untar(sbv2Bytes).Ok? && ParseSbv2File(rt.untar(sbv2Bytes).value).Err? ==>
      r == Step(h, Err(ParseSbv2File(rt.untar(sbv2Bytes).value).error))
  {
    match rt.untar(sbv2Bytes)
    case Err(e) => Step(h, Err(e))
    case Ok(entries) =>
      match ParseSbv2File(entries)
      case Err(e) => Step(h, Err(e))
      case Ok((style, model)) => Load(rt, h, ident, style, model)
  }

  /** `load_aivmx`: the session is always built (and dropped when the cap is
      reached); a file without the `aivm_style_vectors` metadata adds nothing
      and still succeeds. */
  function LoadAivmx(rt: Runtime, h: Holder, ident: string, aivmxBytes: Bytes): (r: Step<()>)
    ensures r.result.Err? ==> r.holder == h
    ensures IndexOf(h.models, ident).Some? ==> r == Step(h, Ok(()))
    ensures IndexOf(h.models, ident).None? ==>
      (r.result.Err? <==> rt.session(aivmxBytes).Err? || rt.aivmStyle(aivmxBytes).Err?)
    ensures IndexOf(h.models, ident).None? && rt.aivmStyle(aivmxBytes) == Ok(None) ==> r.holder == h
    ensures IndexOf(h.models, ident).None? && r.result.Ok? && rt.aivmStyle(aivmxBytes).Ok? && rt.aivmStyle(aivmxBytes).value.Some? ==>
      r.holder == h.(models := h.models + [Entry(ident, LoadsSession(h), KeptBytes(h, aivmxBytes), rt.aivmStyle(aivmxBytes).value.value)])
  {
    if IndexOf(h.models, ident).Some? then Step(h, Ok(()))
    else match rt.session(aivmxBytes)
      case Err(e) => Step(h, Err(e))
      case Ok(_) =>
        match rt.aivmStyle(aivmxBytes)
        case Err(e) => Step(h, Err(e))
        case Ok(None) => Step(h, Ok(()))
        case Ok(Some(style)) =>
          Step(h.(models := h.models + [Entry(ident, LoadsSession(h), KeptBytes(h, aivmxBytes), style)]), Ok(()))
  }

  // ------------------------------------------------------- find and load

  /** The eviction step: when the resident count has reached the cap, the
      FIRST entry of the list is unloaded, resident or not; an empty list
      panics on `first().unwrap()`. */
  function Evict(h: Holder): (r: Result<Holder>)
    ensures r.Err? <==> h.maxLoaded.Some? && ResidentCount(h.models) >= h.maxLoaded.value && h.models == []
    ensures r.Err? ==> r.error.Panic?
    ensures r.Ok? && h.maxLoaded.Some? && ResidentCount(h.models) >= h.maxLoaded.value ==>
      r.value == h.(models := h.models[1..])
    ensures r.Ok? && !(h.maxLoaded.Some? && ResidentCount(h.models) >= h.maxLoaded.value) ==> r.value == h
  {
    if h.maxLoaded.Some? && ResidentCount(h.models) >= h.maxLoaded.value then
      if h.models == [] then Err(Panic("first() of an empty model list"))
      else
        assert IndexOf(h.models, h.models[0].ident) == Some(0);
        Ok(Unload(h, h.models[0].ident).0)
    else Ok(h)
  }

  /** The end of `find_and_load_model`: the voice appended as resident, then
      looked up again by ident. */
  function Reinsert(evicted: Holder, ident: string, e: Entry): (r: Step<bool>)
    ensures r.holder == evicted.(models := evicted.models + [Entry(ident, true, e.bytes, e.style)])
    ensures r.result.Ok? ==> r.result.value
  {
    var pushed := evicted.(models := evicted.models + [Entry(ident, true, e.bytes, e.style)]);
    match IndexOf(pushed.models, ident)
    case None => Step(pushed, Err(ModelNotFoundError(ident)))
    case Some(k) =>
      if pushed.models[k].resident then Step(pushed, Ok(true))
      else Step(pushed, Err(ModelNotFoundError(ident)))
  }

  /** `find_and_load_model`. A resident voice is left alone. Otherwise its
      entry is removed, a session is built from the kept bytes, the first
      entry may be evicted, and the voice is appended as resident: reloading
      moves it to the end of the list. */
  function FindAndLoad(rt: Runtime, h: Holder, ident: string): (r: Step<bool>)
    ensures IndexOf(h.models, ident).None? ==> r == Step(h, Err(ModelNotFoundError(ident)))
    ensures IndexOf(h.models, ident).Some? && h.models[IndexOf(h.models, ident).value].resident ==> r == Step(h, Ok(true))
    ensures IndexOf(h.models, ident).Some? && !h.models[IndexOf(h.models, ident).value].resident ==>
      var e := h.models[IndexOf(h.models, ident).value];
      var removed := Unload(h, ident).0;
      && (e.bytes.None? ==> r.result.Err? && r.result.error.Panic?)
      && (e.bytes.Some? && rt.session(e.bytes.value).Err? ==> r == Step(removed, Err(rt.session(e.bytes.value).error)))
      && (e.bytes.Some? && rt.session(e.bytes.value).Ok? && Evict(removed).Err? ==> r == Step(removed, Err(Evict(removed).error)))
      && (e.bytes.Some? && rt.session(e.bytes.value).Ok? && Evict(removed).Ok? ==> r == Reinsert(Evict(removed).value, ident, e))
    ensures r.result.Ok? ==> r.result.value
    ensures r.holder.maxLoaded == h.maxLoaded
  {
    match IndexOf(h.models, ident)
    case None => Step(h, Err(ModelNotFoundError(ident)))
    case Some(i) =>
      var e := h.models[i];
      if e.resident then Step(h, Ok(true))
      else if e.bytes.None? then Step(h, Err(Panic("unwrap on missing model bytes")))
      else
        var removed := Unload(h, ident).0;
        match rt.session(e.bytes.value)
        case Err(err) => Step(removed, Err(err))
        case Ok(_) =>
          match Evict(removed)
          case Err(err) => Step(removed, Err(err))
          case Ok(evicted) => Reinsert(evicted, ident, e)
  }

  // ---------------------------------------------------------- invariants

  predicate UniqueIdents(models: seq<Entry>)
  {
    forall i, j :: 0 <= i < j < |models| ==> models[i].ident != models[j].ident
  }

  /** Every entry can get a session back: it has one or keeps its bytes. */
  predicate Reloadable(models: seq<Entry>)
  {
    forall i :: 0 <= i < |models| ==> models[i].resident || models[i].bytes.Some?
  }

  predicate Valid(h: Holder)
  {
    UniqueIdents(h.models) && Reloadable(h.models)
  }

  /** Removing entries keeps both invariants. */
  lemma ValidRemove(h: Holder, i: nat)
    requires Valid(h) && i < |h.models|
    ensures Valid(h.(models := h.models[..i] + h.models[i + 1..]))
    ensures Valid(h.(models := h.models[1..]))
  {
    var m := h.models[..i] + h.models[i + 1..];
    forall a, b | 0 <= a < b < |m| ensures m[a].ident != m[b].ident {
      var a' := if a < i then a else a + 1;
      var b' := if b < i then b else b + 1;
      assert m[a] == h.models[a'] && m[b] == h.models[b'];
    }
    forall a | 0 <= a < |m| ensures m[a].resident || m[a].bytes.Some? {
      assert m[a] == h.models[if a < i then a else a + 1];
    }
    var t := h.models[1..];
    forall a, b | 0 <= a < b < |t| ensures t[a].ident != t[b].ident {
      assert t[a] == h.models[a + 1] && t[b] == h.models[b + 1];
    }
  }

  /** Appending an entry with a fresh ident that can get a session back
      keeps both invariants. */
  lemma ValidPush(h: Holder, e: Entry)
    requires Valid(h) && IndexOf(h.models, e.ident).None?
    requires e.resident || e.bytes.Some?
    ensures Valid(h.(models := h.models + [e]))
  {
  }

  lemma LoadKeepsValid(rt: Runtime, h: Holder, ident: string, styleBytes: Bytes, modelBytes: Bytes)
    requires Valid(h)
    ensures Valid(Load(rt, h, ident, styleBytes, modelBytes).holder)
  {
    var r := NewEntry(rt, h, ident, styleBytes, modelBytes);
    if IndexOf(h.models, ident).None? && r.Ok? {
      ValidPush(h, r.value);
    }
  }

  lemma LoadAivmxKeepsValid(rt: Runtime, h: Holder, ident: string, aivmxBytes: Bytes)
    requires Valid(h)
    ensures Valid(LoadAivmx(rt, h, ident, aivmxBytes).holder)
  {
    if IndexOf(h.models, ident).None? && rt.session(aivmxBytes).Ok? &&
       rt.aivmStyle(aivmxBytes).Ok? && rt.aivmStyle(aivmxBytes).value.Some? {
      ValidPush(h, Entry(ident, LoadsSession(h), KeptBytes(h, aivmxBytes), rt.aivmStyle(aivmxBytes).value.value));
    }
  }

  lemma UnloadKeepsValid(h: Holder, ident: string)
    requires Valid(h)
    ensures Valid(Unload(h, ident).0)
  {
    if IndexOf(h.models, ident).Some? {
      ValidRemove(h, IndexOf(h.models, ident).value);
    }
  }

  /** An ident no longer present after its unique entry is removed. */
  lemma RemovedIsGone(h: Holder, ident: string)
    requires Valid(h) && IndexOf(h.models, ident).Some?
    ensures IndexOf(Unload(h, ident).0.models, ident).None?
  {
    var i := IndexOf(h.models, ident).value;
    var m := Unload(h, ident).0.models;
    forall j | 0 <= j < |m| ensures m[j].ident != ident {
      assert m[j] == h.models[if j < i then j else j + 1];
    }
  }

  /** Eviction keeps the invariants and does not bring an ident back. */
  lemma EvictValid(h: Holder, ident: string)
    requires Valid(h) && IndexOf(h.models, ident).None? && Evict(h).Ok?
    ensures Valid(Evict(h).value) && IndexOf(Evict(h).value.models, ident).None?
  {
    var ev := Evict(h).value;
    if ev != h {
      ValidRemove(h, 0);
      forall j | 0 <= j < |ev.models| ensures ev.models[j].ident != ident {
        assert ev.models[j] == h.models[j + 1];
      }
    }
  }

  /** Re-inserting an absent voice keeps the invariants and finds it resident. */
  lemma ReinsertValid(h: Holder, ident: string, e: Entry)
    requires Valid(h) && IndexOf(h.models, ident).None?
    ensures Valid(Reinsert(h, ident, e).holder) && Reinsert(h, ident, e).result == Ok(true)
  {
    var entry := Entry(ident, true, e.bytes, e.style);
    ValidPush(h, entry);
    var pushed := h.(models := h.models + [entry]);
    assert pushed.models[|h.models|].ident == ident;
    assert forall j :: 0 <= j < |h.models| ==> pushed.models[j] == h.models[j];
    assert IndexOf(pushed.models, ident) == Some(|h.models|);
  }

  /** In a valid holder `find_and_load_model` keeps the invariants, the
      `unwrap` on the bytes cannot fail, and the final `ModelNotFoundError`
      cannot be reached: an error is the session's own error, or the panic of
      a cap of 0 whose only voice is the target. */
  lemma FindAndLoadValid(rt: Runtime, h: Holder, ident: string)
    requires Valid(h)
    ensures Valid(FindAndLoad(rt, h, ident).holder)
    ensures var r := FindAndLoad(rt, h, ident);
      IndexOf(h.models, ident).Some? && r.result.Err? ==>
        || (var e := h.models[IndexOf(h.models, ident).value];
            e.bytes.Some? && rt.session(e.bytes.value) == Err(r.result.error))
        || (r.result.error.Panic? && h.maxLoaded == Some(0) && |h.models| == 1)
  {
    match IndexOf(h.models, ident)
    case None =>
    case Some(i) =>
      var e := h.models[i];
      if !e.resident {
        var removed := Unload(h, ident).0;
        UnloadKeepsValid(h, ident);
        RemovedIsGone(h, ident);
        if rt.session(e.bytes.value).Ok? {
          if Evict(removed).Ok? {
            EvictValid(removed, ident);
            ReinsertValid(Evict(removed).value, ident, e);
          } else {
            assert |removed.models| == |h.models| - 1;
          }
        }
      }
  }

  /** After a successful `find_and_load_model` in a valid holder, the voice is
      in the list and resident. */
  lemma FindAndLoadResident(rt: Runtime, h: Holder, ident: string)
    requires Valid(h) && FindAndLoad(rt, h, ident).result.Ok?
    ensures var m := FindAndLoad(rt, h, ident).holder.models;
      IndexOf(m, ident).Some? && m[IndexOf(m, ident).value].resident
  {
    var i := IndexOf(h.models, ident).value;
    var e := h.models[i];
    if !e.resident {
      var removed := Unload(h, ident).0;
      UnloadKeepsValid(h, ident);
      RemovedIsGone(h, ident);
      EvictValid(removed, ident);
      ReinsertResident(Evict(removed).value, ident, e);
    }
  }

  /** The re-inserted voice is found again, as the resident last entry. */
  lemma ReinsertResident(ev: Holder, ident: string, e: Entry)
    requires IndexOf(ev.models, ident).None?
    ensures var m := Reinsert(ev, ident, e).holder.models;
      IndexOf(m, ident) == Some(|ev.models|) && m[|ev.models|].resident
  {
    var pushed := ev.models + [Entry(ident, true, e.bytes, e.style)];
    assert pushed[|ev.models|].ident == ident;
    assert forall j :: 0 <= j < |ev.models| ==> pushed[j] == ev.models[j];
  }

  /** Without a cap every voice is resident after loading, so a valid holder
      without a cap has every entry resident and `find_and_load_model` never
      changes it. */
  lemma NoCapAllResident(rt: Runtime, h: Holder, ident: string, styleBytes: Bytes, modelBytes: Bytes)
    requires h.maxLoaded.None?
    requires forall i :: 0 <= i < |h.models| ==> h.models[i].resident
    ensures var h2 := Load(rt, h, ident, styleBytes, modelBytes).holder;
      forall i :: 0 <= i < |h2.models| ==> h2.models[i].resident
    ensures FindAndLoad(rt, h, ident).holder == h
  {
    var h2 := Load(rt, h, ident, styleBytes, modelBytes).holder;
    if IndexOf(h.models, ident).None? && NewEntry(rt, h, ident, styleBytes, modelBytes).Ok? {
      assert h2.models == h.models + [NewEntry(rt, h, ident, styleBytes, modelBytes).value];
    }
  }

  /** `load` never takes the resident count past the cap. */
  lemma LoadRespectsCap(rt: Runtime, h: Holder, ident: string, styleBytes: Bytes, modelBytes: Bytes)
    requires h.maxLoaded.Some? && ResidentCount(h.models) <= h.maxLoaded.value
    ensures ResidentCount(Load(rt, h, ident, styleBytes, modelBytes).holder.models) <= h.maxLoaded.value
  {
    var r := NewEntry(rt, h, ident, styleBytes, modelBytes);
    if IndexOf(h.models, ident).None? && r.Ok? {
      ResidentCountAppend(h.models, [r.value]);
      assert ResidentCount([r.value]) == if r.value.resident then 1 else 0;
    }
  }

  /** `load` of a new ident whose decoding succeeds appends exactly this entry. */
  lemma LoadFresh(rt: Runtime, h: Holder, ident: string, st: Bytes, mb: Bytes)
    requires IndexOf(h.models, ident).None?
    requires rt.session(mb).Ok? && LoadStyleBytes(rt, st).Ok?
    ensures Load(rt, h, ident, st, mb).holder ==
      h.(models := h.models + [Entry(ident, LoadsSession(h), KeptBytes(h, mb), LoadStyleBytes(rt, st).value)])
  {
  }

  /** Reloading a non-resident `target` under a cap of 1 that is already
      reached: the first entry goes, the target comes back last and resident. */
  lemma ReloadAtCap(rt: Runtime, first: Entry, other: Entry, target: Entry)
    requires first.ident != target.ident && other.ident != target.ident
    requires !target.resident && target.bytes.Some? && rt.session(target.bytes.value).Ok?
    requires (if first.resident then 1 else 0) + (if other.resident then 1 else 0) == 1
    ensures var r := FindAndLoad(rt, Holder([first, other, target], Some(1)), target.ident);
      r.result == Ok(true) && r.holder == Holder([other, target.(resident := true)], Some(1))
  {
    var h := Holder([first, other, target], Some(1));
    assert h.models[0].ident != target.ident && h.models[1].ident != target.ident && h.models[2].ident == target.ident;
    assert IndexOf(h.models, target.ident) == Some(2);
    var removed := Unload(h, target.ident).0;
    assert removed.models == [first, other];
    assert ResidentCount(removed.models) == 1;
    assert IndexOf(removed.models, first.ident) == Some(0);
    assert Evict(removed) == Ok(Holder([other], Some(1)));
    var pushed := [other, target.(resident := true)];
    assert pushed[0].ident != target.ident && pushed[1].ident == target.ident;
    assert IndexOf(pushed, target.ident) == Some(1);
  }

  /** The cap is not an invariant of `find_and_load_model`: eviction removes
      the first entry even when it is not resident. With a cap of 1: load A,
      B and C (only A resident), reload C (A evicted), load D, reload D (B,
      not resident, evicted) leaves C and D both resident. */
  lemma CapNotPreserved(rt: Runtime, st: Bytes, mb: Bytes)
    requires rt.session(mb).Ok? && LoadStyleBytes(rt, st).Ok?
    ensures var h0 := Holder([], Some(1));
      var h1 := Load(rt, h0, "A", st, mb).holder;
      var h2 := Load(rt, h1, "B", st, mb).holder;
      var h3 := Load(rt, h2, "C", st, mb).holder;
      var h4 := FindAndLoad(rt, h3, "C").holder;
      var h5 := Load(rt, h4, "D", st, mb).holder;
      var r6 := FindAndLoad(rt, h5, "D");
      r6.result == Ok(true) && Idents(r6.holder.models) == ["C", "D"] && ResidentCount(r6.holder.models) == 2
  {
    var style := LoadStyleBytes(rt, st).value;
    var c := Entry("C", true, Some(mb), style);
    var dr := Entry("D", true, Some(mb), style);
    CapFirstReload(rt, st, mb);
    CapSecondReload(rt, st, mb);
    assert [c, dr][1..] == [dr];
    assert ResidentCount([c, dr]) == 2;
  }

  /** The first half of `CapNotPreserved`: after loading A, B and C with a
      cap of 1, reloading C evicts A and leaves B (not resident) and C. */
  lemma CapFirstReload(rt: Runtime, st: Bytes, mb: Bytes)
    requires rt.session(mb).Ok? && LoadStyleBytes(rt, st).Ok?
    ensures var h0 := Holder([], Some(1));
      var h1 := Load(rt, h0, "A", st, mb).holder;
      var h2 := Load(rt, h1, "B", st, mb).holder;
      var h3 := Load(rt, h2, "C", st, mb).holder;
      var style := LoadStyleBytes(rt, st).value;
      FindAndLoad(rt, h3, "C").holder
        == Holder([Entry("B", false, Some(mb), style), Entry("C", true, Some(mb), style)], Some(1))
  {
    var style := LoadStyleBytes(rt, st).value;
    var b := Some(mb);
    var a := Entry("A", true, b, style);
    var bn := Entry("B", false, b, style);
    var cn := Entry("C", false, b, style);
    var h0 := Holder([], Some(1));
    LoadFresh(rt, h0, "A", st, mb);
    var h1 := Load(rt, h0, "A", st, mb).holder;
    assert h1.models == [a];
    assert IndexOf(h1.models, "B").None?;
    LoadFresh(rt, h1, "B", st, mb);
    var h2 := Load(rt, h1, "B", st, mb).holder;
    assert h2.models == [a, bn];
    assert IndexOf(h2.models, "C").None?;
    LoadFresh(rt, h2, "C", st, mb);
    var h3 := Load(rt, h2, "C", st, mb).holder;
    assert h3 == Holder([a, bn, cn], Some(1));
    ReloadAtCap(rt, a, bn, cn);
  }

  /** The second half: loading D next to B and a resident C, then reloading
      D, evicts B although it has no session, leaving C and D resident. */
  lemma CapSecondReload(rt: Runtime, st: Bytes, mb: Bytes)
    requires rt.session(mb).Ok? && LoadStyleBytes(rt, st).Ok?
    ensures var style := LoadStyleBytes(rt, st).value;
      var h4 := Holder([Entry("B", false, Some(mb), style), Entry("C", true, Some(mb), style)], Some(1));
      var h5 := Load(rt, h4, "D", st, mb).holder;
      FindAndLoad(rt, h5, "D") == Step(Holder([Entry("C", true, Some(mb), style), Entry("D", true, Some(mb), style)], Some(1)), Ok(true))
  {
    var style := LoadStyleBytes(rt, st).value;
    var b := Some(mb);
    var bn := Entry("B", false, b, style);
    var c := Entry("C", true, b, style);
    var dn := Entry("D", false, b, style);
    var h4 := Holder([bn, c], Some(1));
    assert IndexOf(h4.models, "D").None?;
    assert ResidentCount(h4.models) == 1 by {
      assert h4.models[1..] == [c];
    }
    LoadFresh(rt, h4, "D", st, mb);
    var h5 := Load(rt, h4, "D", st, mb).holder;
    assert h5 == Holder([bn, c, dn], Some(1));
    ReloadAtCap(rt, bn, c, dn);
  }
}
