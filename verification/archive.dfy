/** Member selection in a `.sbv2` voice archive (sbv2_core/src/sbv2file.rs)
    and the layout its converter writes (scripts/convert/convert_model.py).
    The archive is taken after Zstandard decoding, as the sequence of tar
    entries the tar reader yields. */
module Archive {
  import opened Wrappers

  newtype byte = x: int | 0 <= x < 256

  type Bytes = seq<byte>

  /** One item of the tar entry iterator: a member whose body can be read
      (or fails to read), or an entry the reader rejects. */
  datatype TarEntry = Member(path: string, body: Option<Bytes>) | Malformed

  const ModelPath: string := "model.onnx"
  const StylePath: string := "style_vectors.json"
  const VersionPath: string := "version.txt"

  /** The `while let Some(Ok(e))` loop: the latest model and style bodies seen
      so far; the first malformed entry ends the loop as if the archive
      ended there, and a body that cannot be read is an I/O error. */
  function Scan(entries: seq<TarEntry>, style: Option<Bytes>, model: Option<Bytes>): (r: Result<(Option<Bytes>, Option<Bytes>)>)
    ensures r.Err? ==> r.error == IoError
    decreases |entries|
  {
    if entries == [] then Ok((style, model))
    else match entries[0]
      case Malformed => Ok((style, model))
      case Member(path, body) =>
        if body.None? then Err(IoError)
        else if path == ModelPath then Scan(entries[1..], style, body)
        else if path == StylePath then Scan(entries[1..], body, model)
        else Scan(entries[1..], style, model)
  }

  /** `parse_sbv2file`: (style bytes, model bytes). A missing style is
      reported first, even when the model is missing too. */
  function ParseSbv2File(entries: seq<TarEntry>): (r: Result<(Bytes, Bytes)>)
    ensures Scan(entries, None, None).Err? ==> r == Err(IoError)
    ensures Scan(entries, None, None).Ok? ==>
      var (s, m) := Scan(entries, None, None).value;
      && (s.None? <==> r == Err(ModelNotFoundError("style_vectors")))
      && (s.Some? && m.None? <==> r == Err(ModelNotFoundError("vits2")))
      && (r.Ok? <==> s.Some? && m.Some?)
      && (r.Ok? ==> r.value == (s.value, m.value))
  {
    var (s, m) :- Scan(entries, None, None);
    if s.None? then Err(ModelNotFoundError("style_vectors"))
    else if m.None? then Err(ModelNotFoundError("vits2"))
    else Ok((s.value, m.value))
  }

  // --------------------------------------------------- a reference reading

  /** The entries before the first malformed one. */
  function Readable(entries: seq<TarEntry>): (r: seq<TarEntry>)
    ensures |r| <= |entries| && r == entries[..|r|]
    ensures forall i :: 0 <= i < |r| ==> r[i].Member?
    ensures |r| < |entries| ==> entries[|r|].Malformed?
  {
    if entries == [] || entries[0].Malformed? then []
    else [entries[0]] + Readable(entries[1..])
  }

  /** The body of the last member at `path`, or `dflt` if there is none;
      read from the back, so it is independent of the forward loop. */
  function Latest(entries: seq<TarEntry>, path: string, dflt: Option<Bytes>): Option<Bytes>
  {
    if entries == [] then dflt
    else
      var e := entries[|entries| - 1];
      if e.Member? && e.path == path then e.body
      else Latest(entries[..|entries| - 1], path, dflt)
  }

  /** Looking past a first entry: the first entry only matters when no later
      member has the path. */
  lemma {:induction false} LatestCons(e: TarEntry, rest: seq<TarEntry>, path: string, dflt: Option<Bytes>)
    ensures Latest([e] + rest, path, dflt) ==
            Latest(rest, path, if e.Member? && e.path == path then e.body else dflt)
    decreases |rest|
  {
    if rest != [] {
      var all := [e] + rest;
      assert all[|all| - 1] == rest[|rest| - 1];
      assert all[..|all| - 1] == [e] + rest[..|rest| - 1];
      LatestCons(e, rest[..|rest| - 1], path, dflt);
    }
  }

  predicate BodiesReadable(entries: seq<TarEntry>)
  {
    forall i :: 0 <= i < |entries| && entries[i].Member? ==> entries[i].body.Some?
  }

  /** The loop keeps, for each of the two paths, the last member before the
      first malformed entry; members at other paths are ignored. */
  lemma {:induction false} ScanIsLatest(entries: seq<TarEntry>, style: Option<Bytes>, model: Option<Bytes>)
    requires BodiesReadable(Readable(entries))
    ensures Scan(entries, style, model) ==
            Ok((Latest(Readable(entries), StylePath, style), Latest(Readable(entries), ModelPath, model)))
    decreases |entries|
  {
    if entries != [] && entries[0].Member? {
      var e := entries[0];
      var rest := Readable(entries[1..]);
      assert Readable(entries) == [e] + rest;
      assert BodiesReadable(rest) by {
        forall i | 0 <= i < |rest| && rest[i].Member? ensures rest[i].body.Some? {
          assert Readable(entries)[i + 1] == rest[i];
        }
      }
      assert Readable(entries)[0] == e;
      LatestCons(e, rest, StylePath, style);
      LatestCons(e, rest, ModelPath, model);
      if e.path == ModelPath {
        ScanIsLatest(entries[1..], style, e.body);
      } else if e.path == StylePath {
        ScanIsLatest(entries[1..], e.body, model);
      } else {
        ScanIsLatest(entries[1..], style, model);
      }
    }
  }

  /** A malformed entry hides everything after it. */
  lemma {:induction false} MalformedEndsScan(prefix: seq<TarEntry>, suffix: seq<TarEntry>, style: Option<Bytes>, model: Option<Bytes>)
    ensures Scan(prefix + [Malformed] + suffix, style, model) == Scan(prefix, style, model)
    decreases |prefix|
  {
    if prefix == [] {
      assert (prefix + [Malformed] + suffix)[0] == Malformed;
    } else {
      assert (prefix + [Malformed] + suffix)[0] == prefix[0];
      assert (prefix + [Malformed] + suffix)[1..] == prefix[1..] + [Malformed] + suffix;
      match prefix[0]
      case Malformed =>
      case Member(path, body) =>
        if body.Some? {
          if path == ModelPath {
            MalformedEndsScan(prefix[1..], suffix, style, body);
          } else if path == StylePath {
            MalformedEndsScan(prefix[1..], suffix, body, model);
          } else {
            MalformedEndsScan(prefix[1..], suffix, style, model);
          }
        }
    }
  }

  /** Two members at different paths can be read in either order. */
  lemma {:induction false} SwapDistinctPaths(prefix: seq<TarEntry>, a: TarEntry, b: TarEntry, suffix: seq<TarEntry>,
                                             style: Option<Bytes>, model: Option<Bytes>)
    requires a.Member? && b.Member? && a.path != b.path
    ensures Scan(prefix + [a, b] + suffix, style, model) == Scan(prefix + [b, a] + suffix, style, model)
    decreases |prefix|
  {
    var x := prefix + [a, b] + suffix;
    var y := prefix + [b, a] + suffix;
    if prefix == [] {
      assert x[0] == a && x[1..][0] == b && x[1..][1..] == suffix;
      assert y[0] == b && y[1..][0] == a && y[1..][1..] == suffix;
    } else {
      assert x[0] == prefix[0] == y[0];
      assert x[1..] == prefix[1..] + [a, b] + suffix;
      assert y[1..] == prefix[1..] + [b, a] + suffix;
      match prefix[0]
      case Malformed =>
      case Member(path, body) =>
        if body.Some? {
          if path == ModelPath {
            SwapDistinctPaths(prefix[1..], a, b, suffix, style, body);
          } else if path == StylePath {
            SwapDistinctPaths(prefix[1..], a, b, suffix, body, model);
          } else {
            SwapDistinctPaths(prefix[1..], a, b, suffix, style, model);
          }
        }
    }
  }

  /** So `parse_sbv2file` does not depend on whether the model or the style
      table comes first. */
  lemma ParseSbv2FileOrder(prefix: seq<TarEntry>, model: Bytes, style: Bytes, suffix: seq<TarEntry>)
    ensures ParseSbv2File(prefix + [Member(ModelPath, Some(model)), Member(StylePath, Some(style))] + suffix) ==
            ParseSbv2File(prefix + [Member(StylePath, Some(style)), Member(ModelPath, Some(model))] + suffix)
  {
    SwapDistinctPaths(prefix, Member(ModelPath, Some(model)), Member(StylePath, Some(style)), suffix, None, None);
  }

  // ------------------------------------------------------------- the writer

  /** The converter's archive: `version.txt` holding "1", then the model,
      then the style table. */
  function WriteSbv2(style: Bytes, model: Bytes): seq<TarEntry>
  {
    [Member(VersionPath, Some([49])), Member(ModelPath, Some(model)), Member(StylePath, Some(style))]
  }

  /** Reading what the converter writes gives back (style, model). */
  lemma WriteThenParse(style: Bytes, model: Bytes)
    ensures ParseSbv2File(WriteSbv2(style, model)) == Ok((style, model))
  {
    var w := WriteSbv2(style, model);
    assert w[1..] == [Member(ModelPath, Some(model)), Member(StylePath, Some(style))];
    assert w[1..][1..] == [Member(StylePath, Some(style))];
    assert w[1..][1..][1..] == [];
    assert Scan(w, None, None) == Scan(w[1..], None, None);
    assert Scan(w[1..], None, None) == Scan(w[1..][1..], None, Some(model));
    assert Scan(w[1..][1..], None, Some(model)) == Ok((Some(style), Some(model)));
  }
}
