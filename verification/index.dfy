/**
 * `ContractAbi._prepare_abi` and `_add_method_abi`: the ABI records of a
 * contract are sorted into `self.signatures`, a dictionary keyed by byte
 * strings. Functions are keyed by their selector bytes; the constructor,
 * the fallback function and events share three fixed byte-string keys.
 * The dictionary is modelled as a sequence of (key, record) pairs in
 * insertion order, which is the order Python iterates a dict in.
 */
module SignatureIndex {
  import opened Wrappers
  import opened Hex
  import opened Abi

  type Key = seq<uint8>
  type Index = seq<(Key, Descriptor)>

  /** The bytes of an ASCII string, as a Python `b"..."` literal holds them. */
  function Ascii(s: string): seq<uint8> {
    seq(|s|, i requires 0 <= i < |s| => (s[i] as int) % 256)
  }

  const ConstructorKey: Key := Ascii("__constructor__")
  const FallbackKey: Key := Ascii("__fallback__")
  const EventKey: Key := Ascii("__event__")

  function KeysOf(idx: Index): seq<Key> {
    seq(|idx|, i requires 0 <= i < |idx| => idx[i].0)
  }

  /** A dictionary holds each key once. */
  predicate DistinctKeys(idx: Index) {
    forall i, j :: 0 <= i < j < |idx| ==> idx[i].0 != idx[j].0
  }

  /** Where `k` sits in the dictionary, if anywhere. */
  function Position(idx: Index, k: Key): (r: Option<nat>)
    ensures r.Some? ==> r.value < |idx| && idx[r.value].0 == k
    ensures r.Some? ==> forall j :: 0 <= j < r.value ==> idx[j].0 != k
    ensures r.None? ==> forall j :: 0 <= j < |idx| ==> idx[j].0 != k
  {
    if |idx| == 0 then None
    else if idx[0].0 == k then Some(0)
    else match Position(idx[1..], k)
      case None => None
      case Some(i) => Some(i + 1)
  }

  /** `signatures.get(k)`. */
  function Get(idx: Index, k: Key): (r: Option<Descriptor>)
    ensures r.Some? <==> k in KeysOf(idx)
  {
    match Position(idx, k)
    case None => None
    case Some(i) =>
      assert KeysOf(idx)[i] == k;
      Some(idx[i].1)
  }

  /**
   * `signatures[k] = d`: a new key goes to the end; an existing key keeps its
   * place and gets the new record (the last write wins).
   */
  function Put(idx: Index, k: Key, d: Descriptor): (r: Index)
    ensures Get(r, k) == Some(d)
    ensures forall k' :: k' != k ==> Get(r, k') == Get(idx, k')
    ensures k in KeysOf(idx) ==> KeysOf(r) == KeysOf(idx)
    ensures k !in KeysOf(idx) ==> KeysOf(r) == KeysOf(idx) + [k]
    ensures DistinctKeys(idx) ==> DistinctKeys(r)
  {
    match Position(idx, k)
    case Some(i) =>
      var r := idx[i := (k, d)];
      assert KeysOf(r) == KeysOf(idx);
      PositionAgrees(idx, r, k);
      assert forall k' :: k' != k ==> Position(r, k') == Position(idx, k') by {
        forall k' | k' != k ensures Position(r, k') == Position(idx, k') {
          PositionAgrees(idx, r, k');
        }
      }
      r
    case None =>
      var r := idx + [(k, d)];
      assert KeysOf(r) == KeysOf(idx) + [k];
      assert forall j :: 0 <= j < |idx| ==> r[j] == idx[j];
      assert r[|idx|].0 == k;
      assert forall k' :: k' != k ==> Position(r, k') == Position(idx, k') by {
        forall k' | k' != k ensures Position(r, k') == Position(idx, k') {
          PositionExtends(idx, r, k');
        }
      }
      r
  }

  /** Two indexes whose keys agree wherever either holds `k` find `k` at the same place. */
  lemma PositionAgrees(a: Index, b: Index, k: Key)
    requires |a| == |b|
    requires forall j :: 0 <= j < |a| ==> (a[j].0 == k <==> b[j].0 == k)
    ensures Position(a, k) == Position(b, k)
  {
    var pa, pb := Position(a, k), Position(b, k);
    assert pa.Some? ==> b[pa.value].0 == k;
    assert pb.Some? ==> a[pb.value].0 == k;
  }

  /** Appending a pair under another key does not move `k`. */
  lemma PositionExtends(a: Index, b: Index, k: Key)
    requires |b| == |a| + 1 && b[..|a|] == a && b[|a|].0 != k
    ensures Position(a, k) == Position(b, k)
  {
    var pa, pb := Position(a, k), Position(b, k);
    assert forall j :: 0 <= j < |a| ==> b[j] == a[j];
    assert pa.Some? ==> b[pa.value].0 == k;
    assert pb.Some? ==> pb.value < |a| && a[pb.value].0 == k;
  }

  /** `element_description.get("signature")` is truthy. */
  predicate HasSignature(e: Descriptor) {
    e.signature.Some? && e.signature.value != ""
  }

  /**
   * One turn of the `_prepare_abi` loop: the key and record an ABI entry is
   * stored under, nothing for a function without a selector, or the
   * exception the entry raises.
   */
  function Classify(e: Descriptor): (r: Result<Option<(Key, Descriptor)>, Error>)
    ensures r.Failure? <==> (e.kind.None?
                             || e.kind.value !in {"constructor", "fallback", "function", "event"}
                             || (e.kind == Some("function") && HasSignature(e) && StrToBytes(e.signature.value).None?))
    ensures r == Success(None) <==> e.kind == Some("function") && !HasSignature(e)
    ensures r.Success? && r.value.Some? && e.kind != Some("fallback") ==> r.value.value.1 == e
    ensures r.Success? && r.value.Some? && e.kind == Some("fallback") ==>
      r.value.value == (FallbackKey, e.(inputs := Some(e.inputs.GetOr([]))))
    ensures e.kind == Some("constructor") ==> r.Success? && r.value.Some? && r.value.value.0 == ConstructorKey
    ensures e.kind == Some("event") ==> r.Success? && r.value.Some? && r.value.value.0 == EventKey
    ensures e.kind == Some("function") && HasSignature(e) && r.Success? ==>
      r.value == Some((StrToBytes(e.signature.value).value, e))
  {
    match e.kind
    case None => Failure(MissingKey("type"))
    case Some(t) =>
      if t == "constructor" then Success(Some((ConstructorKey, e)))
      else if t == "fallback" then Success(Some((FallbackKey, e.(inputs := Some(e.inputs.GetOr([]))))))
      else if t == "function" then
        if !HasSignature(e) then Success(None)
        else match StrToBytes(e.signature.value)
          case None => Failure(BadHex(e.signature.value))
          case Some(selector) => Success(Some((selector, e)))
      else if t == "event" then Success(Some((EventKey, e)))
      else Failure(InvalidAbiType(t))
  }

  /** `self.signatures` after a call to `_prepare_abi`, and the exception that ended it early, if any. */
  datatype Prepared = Prepared(index: Index, error: Option<Error>)

  /** Apply one entry to the dictionary built so far. */
  function Step(idx: Index, e: Descriptor): Prepared {
    match Classify(e)
    case Failure(err) => Prepared(idx, Some(err))
    case Success(None) => Prepared(idx, None)
    case Success(Some((k, d))) => Prepared(Put(idx, k, d), None)
  }

  /** The `for` loop of `_prepare_abi`, from the dictionary `idx` on. */
  function PrepareFrom(idx: Index, entries: seq<Descriptor>): (p: Prepared)
    ensures DistinctKeys(idx) ==> DistinctKeys(p.index)
    decreases |entries|
  {
    if |entries| == 0 then Prepared(idx, None)
    else
      var p := Step(idx, entries[0]);
      if p.error.Some? then p else PrepareFrom(p.index, entries[1..])
  }

  /** `_prepare_abi(jsonabi)`: the dictionary is reset to `{}` first. */
  function PrepareAbi(entries: seq<Descriptor>): (p: Prepared)
    ensures DistinctKeys(p.index)
  {
    PrepareFrom([], entries)
  }

  /** Carry on from a partial result with one more entry. */
  function Continue(p: Prepared, e: Descriptor): Prepared {
    if p.error.Some? then p else Step(p.index, e)
  }

  /** Running the loop over one more entry continues from where the shorter run stopped. */
  lemma {:induction false} PrepareFromAppend(idx: Index, entries: seq<Descriptor>, e: Descriptor)
    ensures PrepareFrom(idx, entries + [e]) == Continue(PrepareFrom(idx, entries), e)
    decreases |entries|
  {
    if |entries| == 0 {
      assert [e][1..] == [];
    } else {
      assert (entries + [e])[0] == entries[0];
      assert (entries + [e])[1..] == entries[1..] + [e];
      var p := Step(idx, entries[0]);
      if p.error.None? {
        PrepareFromAppend(p.index, entries[1..], e);
      }
    }
  }

  /** The reference reading of the index: the record of the last entry filed under `k`. */
  function LastFiled(entries: seq<Descriptor>, k: Key): Option<Descriptor> {
    if |entries| == 0 then None
    else
      var c := Classify(entries[|entries| - 1]);
      if c.Success? && c.value.Some? && c.value.value.0 == k then Some(c.value.value.1)
      else LastFiled(entries[..|entries| - 1], k)
  }

  /** Whatever the entry order, every key of a successful build holds the last record filed under it. */
  lemma {:induction false} LastEntryWins(entries: seq<Descriptor>, k: Key)
    requires PrepareAbi(entries).error.None?
    ensures Get(PrepareAbi(entries).index, k) == LastFiled(entries, k)
    decreases |entries|
  {
    if |entries| > 0 {
      var es, e := entries[..|entries| - 1], entries[|entries| - 1];
      assert entries == es + [e];
      PrepareFromAppend([], es, e);
      assert PrepareAbi(es).error.None?;
      LastEntryWins(es, k);
    }
  }

  /** Every entry classifies without an exception. */
  predicate AllClassify(entries: seq<Descriptor>) {
    forall i :: 0 <= i < |entries| ==> Classify(entries[i]).Success?
  }

  /** `_prepare_abi` completes exactly when no entry raises. */
  lemma {:induction false} PrepareFromCompletes(idx: Index, entries: seq<Descriptor>)
    ensures PrepareFrom(idx, entries).error.None? <==> AllClassify(entries)
    decreases |entries|
  {
    if |entries| > 0 {
      var p := Step(idx, entries[0]);
      if p.error.None? {
        PrepareFromCompletes(p.index, entries[1..]);
        assert AllClassify(entries) <==> AllClassify(entries[1..]) by {
          assert forall i :: 1 <= i < |entries| ==> entries[i] == entries[1..][i - 1];
        }
      }
    }
  }

  /**
   * When entry `i` is the first to raise, `_prepare_abi` raises its exception
   * and leaves behind the dictionary built from the entries before it.
   */
  lemma {:induction false} PrepareFromStopsAt(idx: Index, entries: seq<Descriptor>, i: nat)
    requires i < |entries| && Classify(entries[i]).Failure?
    requires AllClassify(entries[..i])
    ensures PrepareFrom(idx, entries) == Prepared(PrepareFrom(idx, entries[..i]).index, Some(Classify(entries[i]).error))
    decreases i
  {
    if i > 0 {
      assert Classify(entries[..i][0]).Success?;
      var p := Step(idx, entries[0]);
      assert entries[1..][i - 1] == entries[i];
      assert entries[1..][..i - 1] == entries[..i][1..];
      var tail := entries[1..][..i - 1];
      assert AllClassify(tail) by {
        forall j | 0 <= j < |tail| ensures Classify(tail[j]).Success? {
          assert tail[j] == entries[..i][j + 1];
        }
      }
      PrepareFromStopsAt(p.index, entries[1..], i - 1);
    }
  }

  /** `ContractAbi`: the ABI list and the dictionary derived from it. */
  datatype ContractAbi = ContractAbi(abi: seq<Descriptor>, signatures: Index)

  /** The dictionary is the one `_prepare_abi` derives from the ABI list. */
  predicate Consistent(c: ContractAbi) {
    PrepareAbi(c.abi) == Prepared(c.signatures, None)
  }

  /**
   * `ContractAbi(jsonabi)`: fails exactly when some entry raises; otherwise
   * every key holds the last record filed under it.
   */
  function NewContractAbi(entries: seq<Descriptor>): (r: Result<ContractAbi, Error>)
    ensures r.Success? <==> AllClassify(entries)
    ensures r.Success? ==> r.value.abi == entries && Consistent(r.value) && DistinctKeys(r.value.signatures)
    ensures r.Success? ==> forall k :: Get(r.value.signatures, k) == LastFiled(entries, k)
  {
    var p := PrepareAbi(entries);
    PrepareFromCompletes([], entries);
    if p.error.Some? then Failure(p.error.value)
    else
      assert forall k :: Get(p.index, k) == LastFiled(entries, k) by {
        forall k ensures Get(p.index, k) == LastFiled(entries, k) {
          LastEntryWins(entries, k);
        }
      }
      Success(ContractAbi(entries, p.index))
  }

  /**
   * `_add_method_abi(e)`: the entry is appended to the ABI list and the
   * dictionary rebuilt from scratch; an exception is returned next to the
   * object, which keeps the longer list and the partial dictionary.
   */
  function AddMethodAbi(c: ContractAbi, e: Descriptor): (r: (ContractAbi, Option<Error>))
    ensures r.0.abi == c.abi + [e]
    ensures Consistent(c) ==> (r.0.signatures, r.1) == (Step(c.signatures, e).index, Step(c.signatures, e).error)
    ensures Consistent(c) && r.1.None? ==> Consistent(r.0)
  {
    var p := PrepareAbi(c.abi + [e]);
    PrepareFromAppend([], c.abi, e);
    (ContractAbi(c.abi + [e], p.index), p.error)
  }
}
