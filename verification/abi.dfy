/**
 * The data the decoder manipulates: ABI records as the interface JSON holds
 * them, decoded arguments, the abstract ABI value codec and the exceptions
 * the core raises.
 */
module Abi {
  import opened Wrappers
  import Hex

  /** One `{"name": ..., "type": ...}` element of an `inputs` or `outputs` list. */
  datatype Param = Param(name: string, typeName: string)

  /**
   * An ABI record (`AbiMethod` seen as the dictionary it extends). Every key
   * of the JSON object may be absent; `signature` holds the selector as a hex
   * string when the interface definition supplies it.
   */
  datatype Descriptor = Descriptor(
    kind: Option<string>,
    name: Option<string>,
    inputs: Option<seq<Param>>,
    outputs: Option<seq<Param>>,
    signature: Option<string>)

  /** An argument value, or the `"<nA>"` marker written when there were no bytes to decode. */
  datatype Data<V> = NotAvailable | Value(value: V)

  /** One `{"type": t, "name": n, "data": v}` element of `AbiMethod.inputs`. */
  datatype Arg<V> = Arg(typeName: string, name: string, data: Data<V>)

  /** An `AbiMethod`: the record together with the decoded arguments attached to it. */
  datatype Call<V> = Call(descriptor: Descriptor, args: seq<Arg<V>>)

  /**
   * What `eth_abi.decode_abi(types, payload)` does: return values, raise a
   * `DecodingError` (the one exception the candidate filter catches), or raise
   * anything else (an unknown type string, for instance).
   */
  datatype Decoding<V> = Decoded(values: seq<V>) | DecodingError | OtherError

  /** The ABI value codec, a parameter of the model. */
  type Decoder<V> = (seq<string>, seq<Hex.uint8>) -> Decoding<V>

  /** The exceptions the core raises. */
  datatype Error =
    | MissingKey(key: string)            // KeyError on a record
    | InvalidAbiType(kind: string)       // "Invalid abi type" from `_prepare_abi`
    | BadHex(text: string)               // ValueError from `bytes.fromhex`
    | BadTextSignature(text: string)     // ValueError unpacking a split signature
    | DecodeFailed                       // DecodingError from the codec
    | DecoderFault                       // any other exception from the codec
    | LookupFailed(sighash: string)      // FourByteDirectoryOnlineLookupError

  /** `[t["type"] for t in params]`. */
  function TypesOf(ps: seq<Param>): seq<string> {
    seq(|ps|, i requires 0 <= i < |ps| => ps[i].typeName)
  }

  /**
   * The arguments `zip(types, names, values)` yields: as many as the shorter
   * list, argument `i` carrying the type and name of parameter `i` and datum `i`.
   */
  ghost predicate Zipped<V>(args: seq<Arg<V>>, ps: seq<Param>, data: seq<Data<V>>) {
    |args| == (if |ps| <= |data| then |ps| else |data|)
    && forall i :: 0 <= i < |args| ==> args[i] == Arg(ps[i].typeName, ps[i].name, data[i])
  }

  /** `zip(types, names, values)`: as long as the shorter of the two lists. */
  function Zip<V>(ps: seq<Param>, data: seq<Data<V>>): (args: seq<Arg<V>>)
    ensures Zipped(args, ps, data)
  {
    var n := if |ps| <= |data| then |ps| else |data|;
    seq(n, i requires 0 <= i < n => Arg(ps[i].typeName, ps[i].name, data[i]))
  }

  function Values<V>(vs: seq<V>): seq<Data<V>> {
    seq(|vs|, i requires 0 <= i < |vs| => Value(vs[i]))
  }

  /** `len(types) * ["<nA>"]`. */
  function Placeholders<V>(n: nat): seq<Data<V>> {
    seq(n, i => NotAvailable)
  }

  /** The error a failed `decode_abi` call raises. */
  function DecodeError<V>(d: Decoding<V>): Error
    requires !d.Decoded?
  {
    if d.DecodingError? then DecodeFailed else DecoderFault
  }

  /** `decode_abi(types, payload)` followed by the zip with the declared parameters. */
  function DecodeArgs<V>(ps: seq<Param>, payload: seq<Hex.uint8>, decode: Decoder<V>): (r: Result<seq<Arg<V>>, Error>)
    ensures r.Success? <==> decode(TypesOf(ps), payload).Decoded?
    ensures r.Success? ==> Zipped(r.value, ps, Values(decode(TypesOf(ps), payload).values))
    ensures r.Failure? ==> r.error == DecodeError(decode(TypesOf(ps), payload))
  {
    match decode(TypesOf(ps), payload)
    case Decoded(vs) => Success(Zip(ps, Values(vs)))
    case other => Failure(DecodeError(other))
  }

  /**
   * The argument step shared by `describe_constructor` and a matched
   * `describe_input`: no bytes give one `"<nA>"` per declared parameter and
   * leave the codec alone; otherwise the bytes are decoded.
   */
  function DescribeArgs<V>(ps: seq<Param>, payload: seq<Hex.uint8>, decode: Decoder<V>): (r: Result<seq<Arg<V>>, Error>)
    ensures |payload| == 0 ==> r.Success? && Zipped(r.value, ps, Placeholders(|ps|))
    ensures |payload| > 0 ==> r == DecodeArgs(ps, payload, decode)
  {
    if |payload| == 0 then Success(Zip(ps, Placeholders(|ps|)))
    else DecodeArgs(ps, payload, decode)
  }
}
