/** The index builder of retrieval/build_index.py: reading the chunk file line
    by line, building the aligned `ids`, `texts` and `metadatas` lists, and the
    order in which the vector store is reset and filled. Embedding, JSON
    decoding and the store's search are outside this model. */
module BuildIndex {
  import opened Maybe
  import opened PyStr

  /** The JSON scalars a chunk record holds. */
  datatype Value = Null | Str(s: string) | Int(i: int) | Bool(b: bool)

  /** A decoded line: a JSON object. */
  type Doc = map<string, Value>

  /** `d.get(key)`. */
  function GetValue(d: Doc, key: string): (v: Value)
    ensures key !in d ==> v == Null
    ensures key in d ==> v == d[key]
  {
    if key in d then d[key] else Null
  }

  /** `safe_str`: `""` for `None`, `str(x)` otherwise. */
  function SafeStr(v: Value): (r: string)
    ensures v.Null? ==> r == ""
    ensures v.Str? ==> r == v.s
    ensures v.Int? ==> r == IntToString(v.i)
    ensures v.Bool? ==> r == (if v.b then "True" else "False")
  {
    match v
    case Null => ""
    case Str(s) => s
    case Int(i) => IntToString(i)
    case Bool(b) => if b then "True" else "False"
  }

  /** Distinct integers and distinct strings keep apart under `safe_str`, and
      only `None` and the empty string map to `""`. */
  lemma SafeStrSeparates(v: Value, w: Value)
    requires (v.Int? && w.Int?) || (v.Str? && w.Str?)
    requires v != w
    ensures SafeStr(v) != SafeStr(w)
    ensures SafeStr(v) == "" <==> v == Str("")
  {
    if v.Int? {
      if v.i < 0 && w.i < 0 {
        NatToStringInjective(-v.i, -w.i);
        assert SafeStr(v)[1..] == NatToString(-v.i);
        assert SafeStr(w)[1..] == NatToString(-w.i);
      } else if v.i >= 0 && w.i >= 0 {
        NatToStringInjective(v.i, w.i);
      } else if v.i < 0 {
        assert SafeStr(v)[0] == '-' && IsDigit(SafeStr(w)[0]);
      } else {
        assert SafeStr(w)[0] == '-' && IsDigit(SafeStr(v)[0]);
      }
    }
  }

  /** What one line contributes to `load_jsonl`'s input: itself, stripped,
      unless that leaves nothing. */
  function KeptLine(line: string): (r: seq<string>)
    ensures |r| <= 1 && (r != [] ==> r[0] != [])
  {
    var t := Strip(line, Whitespace);
    if t != [] then [t] else []
  }

  /** The lines `load_jsonl` decodes, stripped, in file order. */
  function Kept(lines: seq<string>): seq<string> {
    if lines == [] then [] else Kept(lines[..|lines| - 1]) + KeptLine(lines[|lines| - 1])
  }

  /** Reading a file in two parts keeps the lines of the first part followed by
      the lines of the second: every line is kept or dropped on its own, and
      order is preserved. */
  lemma {:induction false} KeptConcat(a: seq<string>, b: seq<string>)
    ensures Kept(a + b) == Kept(a) + Kept(b)
    decreases |b|
  {
    if b == [] {
      assert a + b == a;
    } else {
      var b' := b[..|b| - 1];
      assert a + b == (a + b') + [b[|b| - 1]];
      assert (a + b)[..|a + b| - 1] == a + b';
      KeptConcat(a, b');
    }
  }

  /** Every element kept is non-empty. */
  lemma {:induction false} KeptNonBlank(lines: seq<string>)
    ensures forall k :: 0 <= k < |Kept(lines)| ==> Kept(lines)[k] != []
  {
    if lines != [] {
      KeptNonBlank(lines[..|lines| - 1]);
    }
  }

  /** A line is dropped exactly when it is made of whitespace (`str.isspace`). */
  lemma BlankIsAllWhitespace(line: string)
    ensures KeptLine(line) == [] <==> AllIn(line, Whitespace)
    ensures KeptLine(line) != [] ==> KeptLine(line) == [Strip(line, Whitespace)]
  {
    StripEnds(line, Whitespace);
    var i := SkipFrom(line, Whitespace, 0);
    if AllIn(line, Whitespace) {
      SkipFromUnique(line, Whitespace, 0, |line|);
    } else {
      assert i < |line|;
      assert line[i] !in Whitespace;
      assert TrimTo(line, Whitespace, i, |line|) > i;
    }
  }

  /** The records decoded from the kept lines, `None` as soon as one is rejected. */
  function Decoded(kept: seq<string>, decode: string -> Option<Doc>): Option<seq<Doc>> {
    if kept == [] then Some([])
    else match Decoded(kept[..|kept| - 1], decode)
      case None => None
      case Some(ds) =>
        match decode(kept[|kept| - 1])
        case None => None
        case Some(d) => Some(ds + [d])
  }

  /** Decoding fails exactly when some kept line is rejected; otherwise record
      `k` is the decoding of kept line `k`. */
  lemma {:induction false} DecodedSpec(kept: seq<string>, decode: string -> Option<Doc>)
    ensures Decoded(kept, decode).None? <==> exists k :: 0 <= k < |kept| && decode(kept[k]).None?
    ensures Decoded(kept, decode).Some? ==>
      (|Decoded(kept, decode).value| == |kept|
       && forall k :: 0 <= k < |kept| ==> Some(Decoded(kept, decode).value[k]) == decode(kept[k]))
  {
    if kept != [] {
      var pre := kept[..|kept| - 1];
      DecodedSpec(pre, decode);
      if Decoded(pre, decode).None? {
        var k :| 0 <= k < |pre| && decode(pre[k]).None?;
        assert kept[k] == pre[k];
      } else if decode(kept[|kept| - 1]).Some? {
        var ds := Decoded(pre, decode).value;
        forall k | 0 <= k < |kept| ensures decode(kept[k]).Some? {
          if k < |pre| {
            assert kept[k] == pre[k];
          }
        }
        forall k | 0 <= k < |kept| ensures Some(Decoded(kept, decode).value[k]) == decode(kept[k]) {
          if k < |pre| {
            assert kept[k] == pre[k];
          }
        }
      }
    }
  }

  /** Once a line is rejected, nothing read after it matters. */
  lemma {:induction false} DecodedStaysNone(a: seq<string>, b: seq<string>, decode: string -> Option<Doc>)
    requires Decoded(a, decode).None?
    ensures Decoded(a + b, decode).None?
    decreases |b|
  {
    if b == [] {
      assert a + b == a;
    } else {
      var b' := b[..|b| - 1];
      assert (a + b)[..|a + b| - 1] == a + b';
      DecodedStaysNone(a, b', decode);
    }
  }

  lemma KeptSnoc(lines: seq<string>, i: nat)
    requires i < |lines|
    ensures Kept(lines[..i + 1]) == Kept(lines[..i]) + KeptLine(lines[i])
  {
    assert lines[..i + 1][..i] == lines[..i];
  }

  lemma DecodedSnoc(kept: seq<string>, line: string, decode: string -> Option<Doc>)
    ensures Decoded(kept + [line], decode) ==
      match Decoded(kept, decode)
      case None => None
      case Some(ds) => (match decode(line) case None => None case Some(d) => Some(ds + [d]))
  {
    assert (kept + [line])[..|kept|] == kept;
  }

  /** A line rejected at position `i` makes the whole load fail. */
  lemma LoadFailsAt(lines: seq<string>, i: nat, decode: string -> Option<Doc>)
    requires i < |lines| && Decoded(Kept(lines[..i + 1]), decode).None?
    ensures Decoded(Kept(lines), decode).None?
  {
    assert lines == lines[..i + 1] + lines[i + 1..];
    KeptConcat(lines[..i + 1], lines[i + 1..]);
    DecodedStaysNone(Kept(lines[..i + 1]), Kept(lines[i + 1..]), decode);
  }

  /** `load_jsonl`, with `json.loads` given as `decode` (`None` for a line it
      rejects, where the source raises). */
  method LoadJsonl(lines: seq<string>, decode: string -> Option<Doc>) returns (docs: Option<seq<Doc>>)
    ensures docs == Decoded(Kept(lines), decode)
  {
    var acc: seq<Doc> := [];
    var i := 0;
    while i < |lines|
      invariant 0 <= i <= |lines|
      invariant Decoded(Kept(lines[..i]), decode) == Some(acc)
    {
      KeptSnoc(lines, i);
      var line := Strip(lines[i], Whitespace);
      if line != [] {
        DecodedSnoc(Kept(lines[..i]), line, decode);
        var d := decode(line);
        if d.None? {
          LoadFailsAt(lines, i, decode);
          return None;
        }
        acc := acc + [d.value];
      } else {
        assert Kept(lines[..i + 1]) == Kept(lines[..i]);
      }
      i := i + 1;
    }
    assert lines[..i] == lines;
    docs := Some(acc);
  }

  /** The metadata keys of every stored chunk. */
  const MetaKeys: seq<string> := ["sc_id", "sc_title", "level", "url", "source", "normativity", "version"]

  /** The metadata `main` stores for a record. */
  function Metadata(d: Doc): (m: map<string, string>)
    ensures m.Keys == set k | k in MetaKeys
    ensures forall k :: k in MetaKeys ==> m[k] == SafeStr(GetValue(d, k))
  {
    map k | k in MetaKeys :: SafeStr(GetValue(d, k))
  }

  /** The metadata never carries the record's `doc_set` or `text`, and only
      depends on the seven keys it copies. */
  lemma MetadataKeys(d: Doc, e: Doc)
    requires forall k :: k in MetaKeys ==> GetValue(d, k) == GetValue(e, k)
    ensures "doc_set" !in Metadata(d) && "text" !in Metadata(d)
    ensures Metadata(d) == Metadata(e)
  {
  }

  /** `[d[key] for d in docs]`: `None` when some record lacks the key (a
      `KeyError` in the source). */
  function Column(docs: seq<Doc>, key: string): (r: Option<seq<Value>>)
    ensures r.None? <==> exists k :: 0 <= k < |docs| && key !in docs[k]
    ensures r.Some? ==> |r.value| == |docs| && forall k :: 0 <= k < |docs| ==> r.value[k] == docs[k][key]
  {
    if forall k :: 0 <= k < |docs| ==> key in docs[k] then
      Some(seq(|docs|, k requires 0 <= k < |docs| => docs[k][key]))
    else None
  }

  function Metadatas(docs: seq<Doc>): (r: seq<map<string, string>>)
    ensures |r| == |docs| && forall k :: 0 <= k < |docs| ==> r[k] == Metadata(docs[k])
  {
    seq(|docs|, k requires 0 <= k < |docs| => Metadata(docs[k]))
  }

  /** A collection of the vector store. */
  datatype Collection = Collection(
    space: string, ids: seq<Value>, documents: seq<Value>, metadatas: seq<map<string, string>>)

  /** The persistent vector store, holding at most the one collection `main` uses. */
  class VectorStore {
    var collection: Option<Collection>

    constructor(initial: Option<Collection>)
      ensures collection == initial
    {
      collection := initial;
    }

    /** `delete_collection`, its error when there is none swallowed. */
    method DeleteCollection()
      modifies this
      ensures collection.None?
    {
      collection := None;
    }

    /** `create_collection` with cosine distance. */
    method CreateCollection()
      modifies this
      ensures collection == Some(Collection("cosine", [], [], []))
    {
      collection := Some(Collection("cosine", [], [], []));
    }

    /** `collection.add`. */
    method Add(ids: seq<Value>, documents: seq<Value>, metadatas: seq<map<string, string>>)
      requires collection.Some?
      modifies this
      ensures collection == Some(old(collection.value).(
        ids := old(collection.value.ids) + ids,
        documents := old(collection.value.documents) + documents,
        metadatas := old(collection.value.metadatas) + metadatas))
    {
      var c := collection.value;
      collection := Some(c.(ids := c.ids + ids, documents := c.documents + documents,
                            metadatas := c.metadatas + metadatas));
    }
  }

  /** How `main` ends. */
  datatype Outcome = MissingInput | BadLine | MissingKey(key: string) | Built(items: nat)

  /** The part of `main` after loading: the store is reset, then filled with
      the records' ids, texts and metadata, unless a record lacks one of the
      keys read. */
  method FillStore(docs: seq<Doc>, store: VectorStore) returns (outcome: Outcome)
    modifies store
    ensures outcome.MissingKey? || outcome.Built?
    ensures outcome.MissingKey? ==> store.collection == Some(Collection("cosine", [], [], []))
    ensures outcome.Built? ==>
      && Column(docs, "text").Some? && Column(docs, "sc_id").Some?
      && outcome.items == |docs|
      && store.collection == Some(Collection("cosine", Column(docs, "sc_id").value,
                                             Column(docs, "text").value, Metadatas(docs)))
  {
    store.DeleteCollection();
    store.CreateCollection();
    var texts := Column(docs, "text");
    if texts.None? {
      return MissingKey("text");
    }
    var ids := Column(docs, "sc_id");
    if ids.None? {
      return MissingKey("sc_id");
    }
    var metadatas := Metadatas(docs);
    store.Add(ids.value, texts.value, metadatas);
    assert [] + ids.value == ids.value && [] + texts.value == texts.value && [] + metadatas == metadatas;
    outcome := Built(|store.collection.value.ids|);
  }

  /** `main`, with the input file given as whether it exists and its lines. */
  method BuildIndexMain(exists_: bool, lines: seq<string>, decode: string -> Option<Doc>, store: VectorStore)
    returns (outcome: Outcome)
    modifies store
    ensures outcome == MissingInput <==> !exists_
    ensures outcome == BadLine <==> exists_ && Decoded(Kept(lines), decode).None?
    ensures outcome in {MissingInput, BadLine} ==> store.collection == old(store.collection)
    ensures outcome.MissingKey? ==> store.collection == Some(Collection("cosine", [], [], []))
    ensures outcome.Built? ==>
      Decoded(Kept(lines), decode).Some? &&
      (var docs := Decoded(Kept(lines), decode).value;
       && Column(docs, "text").Some? && Column(docs, "sc_id").Some?
       && outcome.items == |docs| == |Kept(lines)|
       && store.collection == Some(Collection("cosine", Column(docs, "sc_id").value,
                                              Column(docs, "text").value, Metadatas(docs))))
  {
    if !exists_ {
      return MissingInput;
    }
    var loaded := LoadJsonl(lines, decode);
    if loaded.None? {
      return BadLine;
    }
    DecodedSpec(Kept(lines), decode);
    outcome := FillStore(loaded.value, store);
  }
}
