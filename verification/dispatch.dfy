/**
 * `ContractAbi.describe_constructor` and `ContractAbi.describe_input`: the
 * bytes of a transaction are matched against the selector keys of the
 * signature dictionary, and the rest is decoded with the parameter types of
 * the record found.
 */
module Dispatcher {
  import opened Wrappers
  import opened Hex
  import opened Abi
  import opened SignatureIndex

  /** `s.startswith(p)` on byte strings. */
  predicate IsPrefix(p: seq<uint8>, s: seq<uint8>) {
    |p| <= |s| && s[..|p|] == p
  }

  /** `b"__"`. */
  const Dunder: Key := [0x5f, 0x5f]

  /** A key `describe_input` skips: any key beginning with two `_` bytes. */
  predicate IsSkipped(k: Key) {
    IsPrefix(Dunder, k)
  }

  /** The key `k` takes the input `s`. */
  predicate Selects(k: Key, s: seq<uint8>) {
    !IsSkipped(k) && IsPrefix(k, s)
  }

  /** The first dictionary entry, in insertion order, whose key takes `s`. */
  function FindMatch(idx: Index, s: seq<uint8>): (r: Option<nat>)
    ensures r.Some? ==> r.value < |idx| && Selects(idx[r.value].0, s)
    ensures r.Some? ==> forall j :: 0 <= j < r.value ==> !Selects(idx[j].0, s)
    ensures r.None? <==> forall j :: 0 <= j < |idx| ==> !Selects(idx[j].0, s)
  {
    if |idx| == 0 then None
    else if Selects(idx[0].0, s) then Some(0)
    else match FindMatch(idx[1..], s)
      case None =>
        assert forall j :: 1 <= j < |idx| ==> idx[j] == idx[1..][j - 1];
        None
      case Some(i) => Some(i + 1)
  }

  /** The record returned when the contract declares no constructor. */
  const DefaultConstructor: Descriptor := Descriptor(Some("constructor"), Some(""), Some([]), Some([]), None)

  /** The record returned when no selector matches. */
  const FallbackRecord: Descriptor := Descriptor(Some("fallback"), Some("__fallback__"), Some([]), Some([]), None)

  /**
   * What decoding `payload` with parameters `ps` yields under record `d`:
   * the decoded values zipped with the parameters, or the codec's exception
   * raised unchanged.
   */
  ghost predicate DecodedAs<V>(r: Result<Call<V>, Error>, d: Descriptor, ps: seq<Param>, payload: seq<uint8>, decode: Decoder<V>) {
    match decode(TypesOf(ps), payload)
    case Decoded(vs) => r.Success? && r.value.descriptor == d && Zipped(r.value.args, ps, Values(vs))
    case DecodingError => r == Failure(DecodeFailed)
    case OtherError => r == Failure(DecoderFault)
  }

  /**
   * The outcome of attaching `payload` to record `d`: a KeyError without
   * `inputs`; one `"<nA>"` per declared input when there are no bytes;
   * otherwise the bytes decoded with the declared input types.
   */
  ghost predicate Attached<V>(r: Result<Call<V>, Error>, d: Descriptor, payload: seq<uint8>, decode: Decoder<V>) {
    match d.inputs
    case None => r == Failure(MissingKey("inputs"))
    case Some(ps) =>
      if |payload| == 0 then r.Success? && r.value.descriptor == d && Zipped(r.value.args, ps, Placeholders(|ps|))
      else DecodedAs(r, d, ps, payload, decode)
  }

  /**
   * The outcome of the fallback branch when `stored` is what the dictionary
   * holds under `b"__fallback__"`: the whole input is decoded, under the
   * fixed fallback record, with the stored inputs, or with no types at all
   * when nothing is stored.
   */
  ghost predicate FallsBack<V>(r: Result<Call<V>, Error>, stored: Option<Descriptor>, s: seq<uint8>, decode: Decoder<V>) {
    match stored
    case None => DecodedAs(r, FallbackRecord, [], s, decode)
    case Some(f) =>
      if f.inputs.None? then r == Failure(MissingKey("inputs"))
      else DecodedAs(r, FallbackRecord, f.inputs.value, s, decode)
  }

  /**
   * The argument step of both `describe_*` methods: the record's declared
   * inputs label the values decoded from `payload`, or `"<nA>"` when the
   * payload is empty.
   */
  function Attach<V>(d: Descriptor, payload: seq<uint8>, decode: Decoder<V>): (r: Result<Call<V>, Error>)
    ensures Attached(r, d, payload, decode)
    ensures d.inputs.Some? ==> (r.Success? <==> |payload| == 0 || decode(TypesOf(d.inputs.value), payload).Decoded?)
  {
    if d.inputs.None? then Failure(MissingKey("inputs"))
    else
      var args :- DescribeArgs(d.inputs.value, payload, decode);
      Success(Call(d, args))
  }

  /** `describe_constructor(s)`: the whole of `s` is the constructor arguments. */
  function DescribeConstructor<V>(idx: Index, s: seq<uint8>, decode: Decoder<V>): (r: Result<Call<V>, Error>)
    ensures Get(idx, ConstructorKey).None? ==> r == Success(Call(DefaultConstructor, []))
    ensures Get(idx, ConstructorKey).Some? ==> Attached(r, Get(idx, ConstructorKey).value, s, decode)
  {
    match Get(idx, ConstructorKey)
    case None => Success(Call(DefaultConstructor, []))
    case Some(d) => Attach(d, s, decode)
  }

  /** `self.signatures.get(b"__fallback__", {"inputs": []})["inputs"]`. */
  function FallbackInputs(idx: Index): (r: Result<seq<Param>, Error>)
    ensures Get(idx, FallbackKey).None? ==> r == Success([])
    ensures r.Failure? <==> Get(idx, FallbackKey).Some? && Get(idx, FallbackKey).value.inputs.None?
    ensures r.Success? && Get(idx, FallbackKey).Some? ==> r.value == Get(idx, FallbackKey).value.inputs.value
  {
    match Get(idx, FallbackKey)
    case None => Success([])
    case Some(f) =>
      match f.inputs
      case None => Failure(MissingKey("inputs"))
      case Some(ps) => Success(ps)
  }

  /**
   * `describe_input(s)`. The first non-`__` key that prefixes `s` gives the
   * record and the payload after the key; an empty payload gives `"<nA>"`
   * arguments. Without a match the whole of `s` is decoded, even when empty,
   * with the fallback's declared inputs.
   */
  function DescribeInput<V>(idx: Index, s: seq<uint8>, decode: Decoder<V>): (r: Result<Call<V>, Error>)
    ensures FindMatch(idx, s).Some? ==> var (k, d) := idx[FindMatch(idx, s).value];
      Attached(r, d, s[|k|..], decode)
    ensures FindMatch(idx, s).None? ==> FallsBack(r, Get(idx, FallbackKey), s, decode)
  {
    match FindMatch(idx, s)
    case Some(i) =>
      Attach(idx[i].1, s[|idx[i].0|..], decode)
    case None =>
      match FallbackInputs(idx)
      case Failure(e) => Failure(e)
      case Success(ps) =>
        match DecodeArgs(ps, s, decode)
        case Failure(e) => Failure(e)
        case Success(args) => Success(Call(FallbackRecord, args))
  }

  /** The constructor's `"<nA>"` arguments do not depend on the codec: it is not called. */
  lemma EmptyConstructorInputSkipsDecoder<V>(idx: Index, d1: Decoder<V>, d2: Decoder<V>)
    ensures DescribeConstructor(idx, [], d1) == DescribeConstructor(idx, [], d2)
  {
  }

  /**
   * When every selector in the dictionary has the same length (four bytes for
   * a Solidity function), the input `k + p` reaches the record stored under
   * `k` with payload `p`, whatever else the dictionary holds.
   */
  lemma SelectorDispatch<V>(idx: Index, k: Key, p: seq<uint8>, decode: Decoder<V>)
    requires DistinctKeys(idx) && k in KeysOf(idx) && !IsSkipped(k)
    requires forall j :: 0 <= j < |idx| && !IsSkipped(idx[j].0) ==> |idx[j].0| == |k|
    ensures DescribeInput(idx, k + p, decode) == Attach(Get(idx, k).value, p, decode)
  {
    var s := k + p;
    var i :| 0 <= i < |idx| && KeysOf(idx)[i] == k;
    assert Selects(idx[i].0, s) by { assert s[..|k|] == k; }
    var m := FindMatch(idx, s).value;
    assert idx[m].0 == s[..|k|] == k;
    assert m == i;
    assert s[|k|..] == p;
  }

  /**
   * On a contract built from an ABI list, input that no selector takes is
   * decoded whole under the fixed fallback record, with the inputs of the
   * last entry filed under `b"__fallback__"`; when the list files none, with
   * no types at all, so only input the codec reads as empty succeeds, and
   * then without arguments.
   */
  lemma UnmatchedInputFallsBack<V>(entries: seq<Descriptor>, s: seq<uint8>, decode: Decoder<V>)
    requires NewContractAbi(entries).Success?
    requires var idx := NewContractAbi(entries).value.signatures;
      forall j :: 0 <= j < |idx| && IsPrefix(idx[j].0, s) ==> IsSkipped(idx[j].0)
    ensures FallsBack(DescribeInput(NewContractAbi(entries).value.signatures, s, decode), LastFiled(entries, FallbackKey), s, decode)
    ensures LastFiled(entries, FallbackKey).None? ==>
      DescribeInput(NewContractAbi(entries).value.signatures, s, decode)
        == if decode([], s).Decoded? then Success(Call(FallbackRecord, [])) else Failure(DecodeError(decode([], s)))
  {
    var idx := NewContractAbi(entries).value.signatures;
    assert FindMatch(idx, s).None?;
    assert Get(idx, FallbackKey) == LastFiled(entries, FallbackKey);
    assert TypesOf([]) == [];
  }

  /** A function whose selector is empty (signature `0x`) takes every input that reaches it. */
  lemma EmptySelectorTakesEverything(idx: Index, s: seq<uint8>)
    requires [] in KeysOf(idx)
    ensures FindMatch(idx, s).Some?
  {
    var i :| 0 <= i < |idx| && KeysOf(idx)[i] == [];
    assert Selects(idx[i].0, s);
  }

  /**
   * A contract with a single function whose four-byte selector begins
   * `5f 5f` files it under that selector, yet `describe_input` never reaches
   * it: the `__` test meant for the sentinel keys skips it, and the input
   * goes to the fallback. Any other four-byte selector is reached.
   */
  lemma UnderscoreSelectorIsSkipped<V>(e: Descriptor, b: seq<uint8>, p: seq<uint8>, decode: Decoder<V>)
    requires e.kind == Some("function") && e.signature == Some(BytesToStr(b)) && |b| == 4
    ensures NewContractAbi([e]).Success?
    ensures Get(NewContractAbi([e]).value.signatures, b) == Some(e)
    ensures b[0] == 0x5f && b[1] == 0x5f ==>
      DescribeInput(NewContractAbi([e]).value.signatures, b + p, decode)
        == (if decode([], b + p).Decoded? then Success(Call(FallbackRecord, [])) else Failure(DecodeError(decode([], b + p))))
    ensures !(b[0] == 0x5f && b[1] == 0x5f) ==>
      DescribeInput(NewContractAbi([e]).value.signatures, b + p, decode) == Attach(e, p, decode)
  {
    BytesToStrRoundTrip(b);
    assert Classify(e) == Success(Some((b, e)));
    assert AllClassify([e]);
    var idx := NewContractAbi([e]).value.signatures;
    assert idx == [(b, e)] by {
      assert Put([], b, e) == [(b, e)];
      assert Step([], e) == Prepared([(b, e)], None);
      assert [e][1..] == [];
      assert PrepareAbi([e]) == PrepareFrom([(b, e)], []) == Prepared([(b, e)], None);
    }
    assert |FallbackKey| == 12;
    assert FallbackInputs(idx) == Success([]);
    assert (b + p)[..4] == b;
    assert KeysOf(idx)[0] == b;
    if b[0] == 0x5f && b[1] == 0x5f {
      assert IsSkipped(b) by { assert b[..2] == Dunder; }
      assert |FallbackKey| == 12;
      UnmatchedInputFallsBack([e], b + p, decode);
    } else {
      assert !IsSkipped(b) by { assert b[..2] != Dunder by { assert b[..2][0] == b[0] && b[..2][1] == b[1]; } }
      SelectorDispatch(idx, b, p, decode);
    }
  }
}
