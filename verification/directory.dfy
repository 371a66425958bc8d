/**
 * `FourByteDirectory`: the text signatures the online directory knows for a
 * selector become pseudo ABI records, which are kept only when the input's
 * payload decodes with their parameter types; `AbiMethod.from_input_lookup`
 * decodes the input with the first record kept.
 */
module FourByteDirectory {
  import opened Wrappers
  import opened Hex
  import opened Abi
  import opened TextSignature

  /** The directory's answer for one selector: its text signatures, or a failed request. */
  datatype Response = Results(textSignatures: seq<string>) | RequestFailed

  /** The online directory, a parameter of the model: selector hex string to answer. */
  type Directory = string -> Response

  /**
   * What a Python generator delivers when drained: the items it yields, then
   * the exception that ends it, if any. A consumer that stops early never
   * sees the items or the exception that come later.
   */
  datatype Stream<T> = Stream(items: seq<T>, failure: Option<Error>)

  /** `pseudo_abi['signature'] = sighash` on a parsed text signature. */
  function Tagged(d: Descriptor, sighash: string): (r: Descriptor)
    ensures r.signature == Some(sighash)
    ensures r.kind == d.kind && r.name == d.name && r.inputs == d.inputs && r.outputs == d.outputs
  {
    d.(signature := Some(sighash))
  }

  /** One turn of the loop of `get_pseudo_abi_for_sighash`: parse, then tag with the selector. */
  function Parse(text: string, sighash: string): (r: Result<Descriptor, Error>)
    ensures r.Failure? <==> !HasArgumentList(text)
    ensures r.Failure? ==> r.error == BadTextSignature(text)
    ensures r.Success? ==> r.value.signature == Some(sighash) && r.value.kind == Some("function")
    ensures r.Success? ==> r.value.outputs == Some([]) && r.value.inputs.Some?
    ensures r.Success? ==> r.value.(signature := None) == ParseTextSignature(text).value
  {
    match ParseTextSignature(text)
    case Failure(e) => Failure(e)
    case Success(d) => Success(Tagged(d, sighash))
  }

  /** A generator that yields `f(x)` for each `x` in turn and raises the first failure of `f`. */
  function MapUntilFailure<A, B>(xs: seq<A>, f: A -> Result<B, Error>): (r: Stream<B>)
    ensures |r.items| <= |xs|
    ensures forall i :: 0 <= i < |r.items| ==> f(xs[i]) == Success(r.items[i])
    ensures r.failure.None? ==> |r.items| == |xs|
    ensures r.failure.Some? ==> |r.items| < |xs| && f(xs[|r.items|]).Failure?
    ensures r.failure.Some? ==> r.failure == Some(f(xs[|r.items|]).error)
  {
    if |xs| == 0 then Stream([], None)
    else match f(xs[0])
      case Failure(e) => Stream([], Some(e))
      case Success(y) =>
        var rest := MapUntilFailure(xs[1..], f);
        assert forall i :: 1 <= i < |xs| ==> xs[i] == xs[1..][i - 1];
        Stream([y] + rest.items, rest.failure)
  }

  /**
   * The loop of `get_pseudo_abi_for_sighash`: each text signature is parsed
   * and tagged with the selector; the first one that does not parse raises.
   */
  function PseudoAbis(texts: seq<string>, sighash: string): (r: Stream<Descriptor>)
    ensures |r.items| <= |texts|
    ensures forall i :: 0 <= i < |r.items| ==> Parse(texts[i], sighash) == Success(r.items[i])
    ensures r.failure.None? ==> |r.items| == |texts|
    ensures r.failure.Some? ==> |r.items| < |texts| && Parse(texts[|r.items|], sighash).Failure?
    ensures r.failure.Some? ==> r.failure == Some(Parse(texts[|r.items|], sighash).error)
  {
    MapUntilFailure(texts, t => Parse(t, sighash))
  }

  /**
   * `get_pseudo_abi_for_sighash(sighash)`: a failed request raises
   * `FourByteDirectoryOnlineLookupError` before anything is yielded.
   */
  function PseudoAbiForSighash(dir: Directory, sighash: string): (r: Stream<Descriptor>)
    ensures dir(sighash).RequestFailed? ==> r == Stream([], Some(LookupFailed(sighash)))
    ensures dir(sighash).Results? ==> r == PseudoAbis(dir(sighash).textSignatures, sighash)
    ensures forall i :: 0 <= i < |r.items| ==>
      r.items[i].signature == Some(sighash) && r.items[i].kind == Some("function") && r.items[i].outputs == Some([])
  {
    match dir(sighash)
    case RequestFailed => Stream([], Some(LookupFailed(sighash)))
    case Results(texts) => PseudoAbis(texts, sighash)
  }

  /** `s[:4]`, as the hex string the directory is queried with. */
  function Selector(s: seq<uint8>): (r: string)
    ensures |r| == 2 + 2 * (if |s| < 4 then |s| else 4) && r[..2] == "0x"
  {
    BytesToStr(s[..if |s| < 4 then |s| else 4])
  }

  /** `s[4:]`: everything after the selector's bytes. */
  function Payload(s: seq<uint8>): (r: seq<uint8>)
    ensures |r| == if |s| < 4 then 0 else |s| - 4
  {
    s[if |s| < 4 then |s| else 4..]
  }

  /** The selector string converts back to the first four bytes, and the payload is the rest of the input. */
  lemma SelectorPayload(s: seq<uint8>)
    ensures StrToBytes(Selector(s)).Some?
    ensures StrToBytes(Selector(s)).value + Payload(s) == s
  {
    var n := if |s| < 4 then |s| else 4;
    BytesToStrRoundTrip(s[..n]);
    assert s[..n] + s[n..] == s;
  }

  /** A candidate record whose parameter types decode the payload. */
  predicate Fits<V>(d: Descriptor, payload: seq<uint8>, decode: Decoder<V>) {
    d.inputs.Some? && decode(TypesOf(d.inputs.value), payload).Decoded?
  }

  /** The outcome of the trial decode that does not merely reject a candidate. */
  predicate Aborts<V>(d: Descriptor, payload: seq<uint8>, decode: Decoder<V>) {
    d.inputs.None? || decode(TypesOf(d.inputs.value), payload).OtherError?
  }

  /** The exception an aborting candidate raises: a KeyError without `inputs`, else the codec's. */
  function AbortError(d: Descriptor): Error {
    if d.inputs.None? then MissingKey("inputs") else DecoderFault
  }

  /** The reference filter: the candidates whose types decode the payload, in their order. */
  function Kept<V>(ds: seq<Descriptor>, payload: seq<uint8>, decode: Decoder<V>): seq<Descriptor> {
    if |ds| == 0 then []
    else (if Fits(ds[0], payload, decode) then [ds[0]] else []) + Kept(ds[1..], payload, decode)
  }

  /** Where the first candidate that aborts the filter sits, or `|ds|` when none does. */
  function FirstAbort<V>(ds: seq<Descriptor>, payload: seq<uint8>, decode: Decoder<V>): (n: nat)
    ensures n <= |ds|
    ensures forall i :: 0 <= i < n ==> !Aborts(ds[i], payload, decode)
    ensures n < |ds| ==> Aborts(ds[n], payload, decode)
  {
    if |ds| == 0 then 0
    else if Aborts(ds[0], payload, decode) then 0
    else
      assert forall i :: 1 <= i < |ds| ==> ds[i] == ds[1..][i - 1];
      1 + FirstAbort(ds[1..], payload, decode)
  }

  /**
   * The filter of `get_pseudo_abi_for_input`: a candidate is kept when the
   * payload decodes, dropped on a `DecodingError`; any other exception ends
   * the generator.
   */
  function Survivors<V>(ds: seq<Descriptor>, payload: seq<uint8>, decode: Decoder<V>): (r: Stream<Descriptor>)
    ensures r.items == Kept(ds[..FirstAbort(ds, payload, decode)], payload, decode)
    ensures r.failure.None? <==> FirstAbort(ds, payload, decode) == |ds|
    ensures r.failure.Some? ==> r.failure == Some(AbortError(ds[FirstAbort(ds, payload, decode)]))
  {
    if |ds| == 0 then Stream([], None)
    else
      var d := ds[0];
      var rest := Survivors(ds[1..], payload, decode);
      assert forall i :: 1 <= i < |ds| ==> ds[i] == ds[1..][i - 1];
      if Aborts(d, payload, decode) then
        if d.inputs.None? then Stream([], Some(MissingKey("inputs"))) else Stream([], Some(DecoderFault))
      else
        KeptPrefixCons(ds, payload, decode);
        match decode(TypesOf(d.inputs.value), payload)
        case Decoded(_) => Stream([d] + rest.items, rest.failure)
        case DecodingError => rest
  }

  /** The kept prefix of a candidate list that starts with a candidate that does not abort. */
  lemma KeptPrefixCons<V>(ds: seq<Descriptor>, payload: seq<uint8>, decode: Decoder<V>)
    requires |ds| > 0 && !Aborts(ds[0], payload, decode)
    ensures FirstAbort(ds, payload, decode) == 1 + FirstAbort(ds[1..], payload, decode)
    ensures Kept(ds[..FirstAbort(ds, payload, decode)], payload, decode)
         == (if Fits(ds[0], payload, decode) then [ds[0]] else []) + Kept(ds[1..][..FirstAbort(ds[1..], payload, decode)], payload, decode)
  {
    var n := FirstAbort(ds, payload, decode);
    assert ds[..n][0] == ds[0];
    assert ds[..n][1..] == ds[1..][..n - 1];
  }

  /** The reference filter keeps exactly the candidates that fit, and adds none. */
  lemma {:induction false} KeptFits<V>(ds: seq<Descriptor>, payload: seq<uint8>, decode: Decoder<V>)
    ensures forall i :: 0 <= i < |Kept(ds, payload, decode)| ==>
      Kept(ds, payload, decode)[i] in ds && Fits(Kept(ds, payload, decode)[i], payload, decode)
    ensures forall i :: 0 <= i < |ds| && Fits(ds[i], payload, decode) ==> ds[i] in Kept(ds, payload, decode)
    decreases |ds|
  {
    if |ds| > 0 {
      KeptFits(ds[1..], payload, decode);
      var head := if Fits(ds[0], payload, decode) then [ds[0]] else [];
      var k, rest := Kept(ds, payload, decode), Kept(ds[1..], payload, decode);
      assert k == head + rest;
      forall i | 0 <= i < |k| ensures k[i] in ds && Fits(k[i], payload, decode) {
        if i < |head| {
          assert k[i] == ds[0];
        } else {
          var j := i - |head|;
          assert k[i] == rest[j];
          assert rest[j] in ds[1..] && Fits(rest[j], payload, decode);
          InSlice(rest[j], ds, 1, |ds|);
        }
      }
      forall i | 0 <= i < |ds| && Fits(ds[i], payload, decode) ensures ds[i] in k {
        if i > 0 {
          assert ds[i] == ds[1..][i - 1];
          assert ds[i] in rest;
        }
      }
    }
  }

  /** What a slice holds, the whole sequence holds. */
  lemma InSlice<T>(x: T, ds: seq<T>, lo: nat, hi: nat)
    requires lo <= hi <= |ds| && x in ds[lo..hi]
    ensures x in ds
  {
    var j :| 0 <= j < hi - lo && ds[lo..hi][j] == x;
    assert ds[lo + j] == x;
  }

  /**
   * What the filter promises a consumer: every item fits and came from the
   * candidates; it ends without an exception exactly when no candidate
   * aborts, and then every fitting candidate is among its items; the only
   * exceptions are the KeyError and the codec's own.
   */
  lemma SurvivorsSummary<V>(ds: seq<Descriptor>, payload: seq<uint8>, decode: Decoder<V>)
    ensures var r := Survivors(ds, payload, decode);
      && (forall i :: 0 <= i < |r.items| ==> r.items[i] in ds && Fits(r.items[i], payload, decode))
      && (r.failure.None? <==> forall i :: 0 <= i < |ds| ==> !Aborts(ds[i], payload, decode))
      && (r.failure.None? ==> forall i :: 0 <= i < |ds| && Fits(ds[i], payload, decode) ==> ds[i] in r.items)
      && (r.failure == None || r.failure == Some(MissingKey("inputs")) || r.failure == Some(DecoderFault))
  {
    var r, n := Survivors(ds, payload, decode), FirstAbort(ds, payload, decode);
    var pre := ds[..n];
    var k := Kept(pre, payload, decode);
    KeptFits(pre, payload, decode);
    assert r.items == k;
    forall i | 0 <= i < |k| ensures k[i] in ds {
      assert k[i] in pre;
      InSlice(k[i], ds, 0, n);
    }
    if n == |ds| {
      assert pre == ds;
    }
  }

  /** The filter applied to a drained stream of candidates: its exception comes after its items. */
  function Filtered<V>(found: Stream<Descriptor>, payload: seq<uint8>, decode: Decoder<V>): (r: Stream<Descriptor>)
    ensures var n := FirstAbort(found.items, payload, decode);
      && r.items == Kept(found.items[..n], payload, decode)
      && r.failure == if n < |found.items| then Some(AbortError(found.items[n])) else found.failure
  {
    var kept := Survivors(found.items, payload, decode);
    Stream(kept.items, if kept.failure.Some? then kept.failure else found.failure)
  }

  /** Every item the filter lets through fits and came from the stream. */
  lemma FilteredFits<V>(found: Stream<Descriptor>, payload: seq<uint8>, decode: Decoder<V>)
    ensures var r := Filtered(found, payload, decode);
      forall i :: 0 <= i < |r.items| ==> r.items[i] in found.items && Fits(r.items[i], payload, decode)
  {
    var r := Filtered(found, payload, decode);
    var n := FirstAbort(found.items, payload, decode);
    var pre := found.items[..n];
    KeptFits(pre, payload, decode);
    assert r.items == Kept(pre, payload, decode);
    forall i | 0 <= i < |r.items| ensures r.items[i] in found.items {
      InSlice(r.items[i], found.items, 0, n);
    }
  }

  /**
   * `get_pseudo_abi_for_input(s)`: the candidates for the selector `s[:4]`
   * that decode `s[4:]`.
   */
  function PseudoAbiForInput<V>(dir: Directory, decode: Decoder<V>, s: seq<uint8>): (r: Stream<Descriptor>)
    ensures forall i :: 0 <= i < |r.items| ==> Fits(r.items[i], Payload(s), decode)
    ensures forall i :: 0 <= i < |r.items| ==>
      r.items[i].signature == Some(Selector(s)) && r.items[i].kind == Some("function") && r.items[i].outputs == Some([])
    ensures dir(Selector(s)).RequestFailed? ==> r == Stream([], Some(LookupFailed(Selector(s))))
    ensures dir(Selector(s)).Results? ==>
      var found := PseudoAbis(dir(Selector(s)).textSignatures, Selector(s));
      var n := FirstAbort(found.items, Payload(s), decode);
      && r.items == Kept(found.items[..n], Payload(s), decode)
      && r.failure == if n < |found.items| then Some(AbortError(found.items[n])) else found.failure
  {
    var found := PseudoAbiForSighash(dir, Selector(s));
    FilteredFits(found, Payload(s), decode);
    Filtered(found, Payload(s), decode)
  }

  /** The record built from a candidate: its inputs label the values decoded from `s[4:]`. */
  function Build<V>(d: Descriptor, payload: seq<uint8>, decode: Decoder<V>): (r: Result<Call<V>, Error>)
    ensures Fits(d, payload, decode) <==> r.Success?
    ensures r.Success? ==> r.value.descriptor == d && Zipped(r.value.args, d.inputs.value, Values(decode(TypesOf(d.inputs.value), payload).values))
    ensures r.Failure? ==> r.error == if d.inputs.None? then MissingKey("inputs") else DecodeError(decode(TypesOf(d.inputs.value), payload))
  {
    if d.inputs.None? then Failure(MissingKey("inputs"))
    else
      var args :- DecodeArgs(d.inputs.value, payload, decode);
      Success(Call(d, args))
  }

  /**
   * How `from_input_lookup` consumes a stream: the first item, built; the
   * stream's exception only when nothing comes before it; None when empty.
   */
  function First<V>(st: Stream<Descriptor>, payload: seq<uint8>, decode: Decoder<V>): (r: Result<Option<Call<V>>, Error>)
    ensures |st.items| > 0 && Fits(st.items[0], payload, decode) ==> r.Success? && r.value.Some?
    ensures r.Success? && r.value.Some? ==> |st.items| > 0 && r.value.value.descriptor == st.items[0]
    ensures r.Success? && r.value.Some? ==> Fits(st.items[0], payload, decode)
    ensures r.Success? && r.value.Some? ==> var d := st.items[0];
      Zipped(r.value.value.args, d.inputs.value, Values(decode(TypesOf(d.inputs.value), payload).values))
    ensures |st.items| == 0 ==> r == if st.failure.Some? then Failure(st.failure.value) else Success(None)
  {
    if |st.items| > 0 then
      var c :- Build(st.items[0], payload, decode);
      Success(Some(c))
    else if st.failure.Some? then Failure(st.failure.value)
    else Success(None)
  }

  /**
   * `AbiMethod.from_input_lookup(s)`: the first candidate kept, decoded.
   * Only the stream up to that candidate is drawn, so a later exception is
   * never raised; with no candidate the result is None.
   */
  function FromInputLookup<V>(dir: Directory, decode: Decoder<V>, s: seq<uint8>): (r: Result<Option<Call<V>>, Error>)
    ensures r.Success? && r.value.Some? ==> var c := r.value.value;
      && c.descriptor.signature == Some(Selector(s))
      && c.descriptor.kind == Some("function")
      && c.descriptor.outputs == Some([])
      && c.descriptor.inputs.Some?
      && decode(TypesOf(c.descriptor.inputs.value), Payload(s)).Decoded?
      && Zipped(c.args, c.descriptor.inputs.value, Values(decode(TypesOf(c.descriptor.inputs.value), Payload(s)).values))
    ensures dir(Selector(s)).RequestFailed? ==> r == Failure(LookupFailed(Selector(s)))
  {
    var st := PseudoAbiForInput(dir, decode, s);
    First(st, Payload(s), decode)
  }

  /**
   * The reference reading of `from_input_lookup`, one text signature at a
   * time: a text that does not parse raises; a record that decodes is the
   * answer; a `DecodingError` moves on; any other failure raises.
   */
  function FirstVerdict<V>(texts: seq<string>, sighash: string, payload: seq<uint8>, decode: Decoder<V>): Result<Option<Call<V>>, Error> {
    if |texts| == 0 then Success(None)
    else match ParseTextSignature(texts[0])
      case Failure(e) => Failure(e)
      case Success(p) =>
        var d := Tagged(p, sighash);
        if d.inputs.None? then Failure(MissingKey("inputs"))
        else match decode(TypesOf(d.inputs.value), payload)
          case Decoded(vs) => Success(Some(Call(d, Zip(d.inputs.value, Values(vs)))))
          case DecodingError => FirstVerdict(texts[1..], sighash, payload, decode)
          case OtherError => Failure(DecoderFault)
  }

  /** The filter on a stream that starts with `d`. */
  lemma FilteredCons<V>(d: Descriptor, tail: seq<Descriptor>, failure: Option<Error>, payload: seq<uint8>, decode: Decoder<V>)
    ensures var r, rest := Filtered(Stream([d] + tail, failure), payload, decode), Filtered(Stream(tail, failure), payload, decode);
      r == if d.inputs.None? then Stream([], Some(MissingKey("inputs")))
           else match decode(TypesOf(d.inputs.value), payload)
             case Decoded(_) => Stream([d] + rest.items, rest.failure)
             case DecodingError => rest
             case OtherError => Stream([], Some(DecoderFault))
  {
    assert ([d] + tail)[0] == d && ([d] + tail)[1..] == tail;
  }

  /** The parsed stream of texts that start with one that parses. */
  lemma PseudoAbisCons(texts: seq<string>, sighash: string)
    requires |texts| > 0 && Parse(texts[0], sighash).Success?
    ensures var rest := PseudoAbis(texts[1..], sighash);
      PseudoAbis(texts, sighash) == Stream([Parse(texts[0], sighash).value] + rest.items, rest.failure)
  {
    var f := t => Parse(t, sighash);
    assert f(texts[0]) == Parse(texts[0], sighash);
  }

  lemma {:induction false} FilteredFirstVerdict<V>(texts: seq<string>, sighash: string, payload: seq<uint8>, decode: Decoder<V>)
    ensures First(Filtered(PseudoAbis(texts, sighash), payload, decode), payload, decode) == FirstVerdict(texts, sighash, payload, decode)
    decreases |texts|
  {
    if |texts| > 0 && Parse(texts[0], sighash).Success? {
      var d := Parse(texts[0], sighash).value;
      var rest := PseudoAbis(texts[1..], sighash);
      PseudoAbisCons(texts, sighash);
      FilteredCons(d, rest.items, rest.failure, payload, decode);
      if d.inputs.Some? && decode(TypesOf(d.inputs.value), payload).DecodingError? {
        FilteredFirstVerdict(texts[1..], sighash, payload, decode);
      }
    }
  }

  /**
   * `from_input_lookup` answers with the first text signature, in the
   * directory's order, that parses and whose types decode the payload; it
   * raises for the first text that does not parse and the first codec
   * failure other than a `DecodingError`, but only when those come before
   * that answer.
   */
  lemma FromInputLookupIsFirstVerdict<V>(dir: Directory, decode: Decoder<V>, s: seq<uint8>)
    requires dir(Selector(s)).Results?
    ensures FromInputLookup(dir, decode, s) == FirstVerdict(dir(Selector(s)).textSignatures, Selector(s), Payload(s), decode)
  {
    FilteredFirstVerdict(dir(Selector(s)).textSignatures, Selector(s), Payload(s), decode);
  }
}
