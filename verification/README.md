# ethereum-input-decoder, modelled in Dafny

A model of the decoding core of `ethereum_input_decoder/decoder.py`. This is the library that turns a
contract's JSON ABI, or a lookup in the 4byte.directory signature database, into a readable description
of Ethereum transaction input and constructor arguments.

The model covers:

- **Hex conversion** (`Utils.str_to_bytes`, `Utils.bytes_to_str`), module `Hex`.
  `bytes.fromhex` is modelled as Python 3.7 and later defines it: ASCII whitespace may separate byte pairs.
  `replace("0x", "")` removes every occurrence, scanning left to right.
- **Python string operations** the parser relies on (`strip`, `split`, `rsplit`, `join`, `%d`), module `Text`.
  `strip` uses the `str.isspace` character set.
- **Text-signature parsing** (`FourByteDirectory.parse_text_signature`), module `TextSignature`.
  - The name runs to the first `(`. The argument list ends at the last `)` of what follows.
  - A text without both is the `ValueError` of the tuple unpacking.
  - Argument types are cut at every comma, so tuple types are split as well.
- **The ABI dictionary** (`ContractAbi.__init__`, `_prepare_abi`, `_add_method_abi`), module `SignatureIndex`.
  - Keys are raw byte strings, exactly as in Python: a function is filed under the bytes of its `signature`;
    constructor, fallback and event share the keys `b"__constructor__"`, `b"__fallback__"` and `b"__event__"`.
  - The dictionary is an insertion-ordered list of pairs. Assigning to an existing key keeps its position.
  - An invalid `type` raises after the earlier entries have been filed; the model returns the partial
    dictionary together with the error.
- **Dispatch** (`describe_constructor`, `describe_input`), module `Dispatcher`.
  - The first key, in dictionary order, that prefixes the input wins.
  - Keys starting with the bytes `__` are skipped. A genuine four-byte selector beginning `0x5f5f` is
    therefore never matched, and such input falls through to the fallback.
- **The directory pipeline** (`get_pseudo_abi_for_sighash`, `get_pseudo_abi_for_input`,
  `AbiMethod.from_input_lookup`), module `FourByteDirectory`.
  - Python generators are lazy. A generator is modelled as the items it yields before an exception,
    together with that exception, if any.
  - `from_input_lookup` returns the first surviving candidate, so an exception further down the
    stream is never raised.
- **Rendering** (`AbiMethod.describe`), module `Render`: `<type> <name> (<inputs>) returns (<outputs>)`.

Parameters stand in for code outside the model:

- The `eth_abi` codec is a `Decoder<V>`, a function from a type list and a payload to the decoded
  values, a `DecodingError` (which the candidate filter catches), or any other exception (which propagates).
- The 4byte.directory HTTP lookup is a `Directory`, a function from a selector string to the list of text
  signatures or a failed request.
- Python's `%r` of a decoded value is a `show` function.

## Model

| member | source | states |
|---|---|---|
| Hex.Hexlify | ethereum_input_decoder/decoder.py:36 | `hexlify` gives two lower-case digits per byte |
| Hex.HexlifyEncodes | ethereum_input_decoder/decoder.py:36 | digits 2i and 2i+1 spell byte i, high nibble first |
| Hex.BytesToStr | ethereum_input_decoder/decoder.py:34-36 | the text is `0x` followed by 2 lower-case hex digits per byte |
| Hex.Remove0x | ethereum_input_decoder/decoder.py:32 | removing `0x` never lengthens the text and leaves a text without `x` unchanged |
| Hex.Remove0xSplit | ethereum_input_decoder/decoder.py:32 | `replace("0x", "")` removes each occurrence of `0x`, and the text on either side of it is processed separately |
| Hex.Remove0xUnchanged | ethereum_input_decoder/decoder.py:32 | `replace("0x", "")` leaves a text unchanged exactly when `0x` does not occur in it |
| Hex.FromHex | ethereum_input_decoder/decoder.py:32 | `bytes.fromhex` yields at most one byte per two characters |
| Hex.FromHexDigits | ethereum_input_decoder/decoder.py:32 | `bytes.fromhex` of an even number of hex digits, in either case, gives one byte per pair, byte i spelled by digits 2i and 2i+1 |
| Hex.FromHexConcat | ethereum_input_decoder/decoder.py:32 | after a text `fromhex` accepts, the rest is read independently: the bytes concatenate, and a ValueError in the rest is a ValueError of the whole |
| Hex.FromHexSkipsSpaces | ethereum_input_decoder/decoder.py:32 | ASCII whitespace between whole byte pairs changes nothing |
| Hex.FromHexRejects | ethereum_input_decoder/decoder.py:32 | a character that is neither a hex digit nor whitespace raises ValueError |
| Hex.FromHexOddDigits | ethereum_input_decoder/decoder.py:32 | an odd number of hex digits raises ValueError |
| Hex.FromHexSplitPair | ethereum_input_decoder/decoder.py:32 | whitespace between the two digits of one byte pair raises ValueError, whatever follows |
| Hex.StrToBytes | ethereum_input_decoder/decoder.py:26-32 | `str_to_bytes` yields at most one byte per two characters; a canonical `0x` string always converts, to one byte per digit pair, and those bytes hexlify back to its digits |
| Hex.FromHexHexlify | ethereum_input_decoder/decoder.py:32-36 | `fromhex` inverts `hexlify` on every byte string |
| Hex.HexlifyFromHex | ethereum_input_decoder/decoder.py:32-36 | `hexlify` inverts `fromhex` on every even-length lower-case digit string |
| Hex.BytesToStrRoundTrip | ethereum_input_decoder/decoder.py:26-36 | `str_to_bytes(bytes_to_str(b)) == b` for every byte string |
| Hex.StrToBytesDigits | ethereum_input_decoder/decoder.py:26-32 | `str_to_bytes` of an even number of hex digits in either case, with or without the `0x` prefix, is `bytes.fromhex` of the digits: one byte per pair, byte i spelled by digits 2i and 2i+1 |
| Hex.StrToBytesRoundTrip | ethereum_input_decoder/decoder.py:26-36 | every canonical `0x` string converts to bytes and back to itself |
| Text.Strip | ethereum_input_decoder/decoder.py:45-47 | the result of `strip` has no whitespace at either end and is no longer than its input |
| Text.StripStripped | ethereum_input_decoder/decoder.py:45-47 | `strip` is the identity on stripped text |
| Text.StripKeeps | ethereum_input_decoder/decoder.py:45-47 | `strip` keeps every non-whitespace character and adds none |
| Text.FindFirst | ethereum_input_decoder/decoder.py:44 | `split("(", 1)` cuts at the first `(`: a position holding the character with none before it, and none exactly when the character does not occur |
| Text.FindLast | ethereum_input_decoder/decoder.py:45 | `rsplit(")", 1)` cuts at the last `)`: a position holding the character with none after it, and none exactly when the character does not occur |
| Text.Split | ethereum_input_decoder/decoder.py:49 | `split` pieces contain no separator and join back to the original |
| Text.SplitJoin | ethereum_input_decoder/decoder.py:49 | splitting the join of separator-free pieces gives the pieces back |
| Text.JoinEmpty | ethereum_input_decoder/decoder.py:237-240 | `", ".join` of non-empty pieces is empty exactly when there are no pieces |
| Text.JoinFirst | ethereum_input_decoder/decoder.py:237-240 | a join starts with the first character of its first piece |
| Text.JoinLast | ethereum_input_decoder/decoder.py:237-240 | a join ends with the last character of its last piece |
| Text.NatToString | ethereum_input_decoder/decoder.py:49 | `'%d' % i` is a non-empty string of decimal digits without a leading zero |
| Text.DecimalRoundTrip | ethereum_input_decoder/decoder.py:49 | the `%d` text of a number reads back as that number |
| TextSignature.ArgNamesDistinct | ethereum_input_decoder/decoder.py:49 | positional names `arg0`, `arg1`, ... never collide |
| TextSignature.Positional | ethereum_input_decoder/decoder.py:49 | the inputs keep the types in order, and input i is named `arg<i>` |
| TextSignature.PositionalNamesDistinct | ethereum_input_decoder/decoder.py:49 | no two positional inputs share a name |
| TextSignature.ArgumentTypesPieces | ethereum_input_decoder/decoder.py:46-49 | the `if args` guard: there are no types exactly when the argument text is blank; each type is stripped and holds no comma |
| TextSignature.SplitSignature | ethereum_input_decoder/decoder.py:44-45 | the two cuts fail exactly when no `)` follows the first `(`; otherwise the name part is the text before the first `(` and the argument part yields the same types as the text between that `(` and the last `)` |
| TextSignature.ParseTextSignature | ethereum_input_decoder/decoder.py:42-50 | parsing fails, with the text as the error, exactly when no `)` follows the first `(`; on success the name is the stripped text before the first `(`, the inputs are the comma pieces up to the last `)`, type `function`, no outputs |
| TextSignature.ParseFormat | ethereum_input_decoder/decoder.py:42-50 | parsing `name(t1,...,tn)` recovers the name and the types, positionally named, when no type contains a comma |
| TextSignature.ParseEmptyArgumentList | ethereum_input_decoder/decoder.py:49 | `name()` has no inputs (the `if args` guard) |
| TextSignature.TupleTypesAreSplit | ethereum_input_decoder/decoder.py:49 | a tuple type `(a,b)` is cut into the two inputs `(a` and `b)` |
| SignatureIndex.Position | ethereum_input_decoder/decoder.py:135 | a key's position is its first occurrence, or none when absent |
| SignatureIndex.Get | ethereum_input_decoder/decoder.py:135 | a lookup finds a record exactly when the key is in the dictionary |
| SignatureIndex.Put | ethereum_input_decoder/decoder.py:112-122 | after assignment the key holds the new record, every other key is unchanged, and an existing key keeps its place while a new key is appended |
| SignatureIndex.PositionExtends | ethereum_input_decoder/decoder.py:112-122 | adding another key never moves an existing key |
| SignatureIndex.Classify | ethereum_input_decoder/decoder.py:109-125 | raises exactly for a missing or unknown `type` or an unparsable function signature; a function without a signature is not filed; constructor, fallback and event go under their fixed keys; a fallback without inputs gets `[]` |
| SignatureIndex.PrepareFrom | ethereum_input_decoder/decoder.py:108-125 | the loop keeps each key once |
| SignatureIndex.PrepareAbi | ethereum_input_decoder/decoder.py:101-125 | starting from `{}`, the built dictionary holds each key once |
| SignatureIndex.PrepareFromAppend | ethereum_input_decoder/decoder.py:109-125 | running over one more entry continues from where the shorter run stopped |
| SignatureIndex.LastEntryWins | ethereum_input_decoder/decoder.py:108-122 | every key of a completed build holds the last record filed under it |
| SignatureIndex.PrepareFromCompletes | ethereum_input_decoder/decoder.py:109-125 | the build raises nothing exactly when every entry classifies |
| SignatureIndex.PrepareFromStopsAt | ethereum_input_decoder/decoder.py:123-125 | the first invalid entry raises its error and leaves the dictionary built from the entries before it |
| SignatureIndex.NewContractAbi | ethereum_input_decoder/decoder.py:92-95 | construction succeeds exactly when every entry classifies, and then every key holds the last record filed under it |
| SignatureIndex.AddMethodAbi | ethereum_input_decoder/decoder.py:97-99 | appending an entry and rebuilding equals filing that one entry into the old dictionary, and keeps the object consistent |
| Abi.Zip | ethereum_input_decoder/decoder.py:151-152 | `zip` stops at the shorter list and pairs each type and name with its value |
| Abi.DecodeArgs | ethereum_input_decoder/decoder.py:148-152 | decoding succeeds exactly when the codec decodes; argument i takes its type and name from parameter i and its data from value i; a codec exception is raised unchanged |
| Abi.DescribeArgs | ethereum_input_decoder/decoder.py:141-152 | an empty payload gives one `"<nA>"` argument per parameter without calling the codec; otherwise this is the decode |
| Dispatcher.FindMatch | ethereum_input_decoder/decoder.py:164-168 | the chosen key is the first, in dictionary order, that is not skipped and prefixes the input; none means no key qualifies |
| Dispatcher.Attach | ethereum_input_decoder/decoder.py:141-153 | a record without `inputs` raises KeyError; no bytes give one `"<nA>"` argument per declared input; otherwise the decoded values are zipped with the declared types and names, and a codec exception is raised unchanged |
| Dispatcher.DescribeConstructor | ethereum_input_decoder/decoder.py:127-153 | without a constructor the default empty record is returned; otherwise the stored constructor, with one `"<nA>"` per input for empty input, or the whole input decoded and zipped with its inputs, or the codec exception |
| Dispatcher.FallbackInputs | ethereum_input_decoder/decoder.py:188 | fallback types come from the stored fallback, or are empty when there is none |
| Dispatcher.DescribeInput | ethereum_input_decoder/decoder.py:155-197 | a matched key's record gets the bytes after the key (`"<nA>"` per input when none, else decoded and zipped); without a match the fixed fallback record is zipped with the whole input decoded with the stored fallback's inputs, or with no types when none is stored; codec exceptions raised unchanged |
| Dispatcher.EmptyConstructorInputSkipsDecoder | ethereum_input_decoder/decoder.py:145-146 | empty constructor input gives the same description whatever the codec |
| Dispatcher.SelectorDispatch | ethereum_input_decoder/decoder.py:164-183 | when all selectors have the same length, `selector + payload` goes to that selector's record with the payload |
| Dispatcher.UnmatchedInputFallsBack | ethereum_input_decoder/decoder.py:184-197 | on a contract built from an ABI list, input no selector takes is decoded whole with the inputs of the last entry filed under `b"__fallback__"`; when the list files none, it succeeds, without arguments, exactly when the codec reads it with no types |
| Dispatcher.EmptySelectorTakesEverything | ethereum_input_decoder/decoder.py:164-168 | once the empty key is in the dictionary (a function with signature `0x`), every input finds a match |
| Dispatcher.UnderscoreSelectorIsSkipped | ethereum_input_decoder/decoder.py:165-166 | a function whose selector starts `0x5f5f` is filed but never dispatched to; any other selector is |
| FourByteDirectory.PseudoAbis | ethereum_input_decoder/decoder.py:63-67 | the stream yields the parse of each text in order, stopping at the first text that fails to parse, with that failure |
| FourByteDirectory.Tagged | ethereum_input_decoder/decoder.py:66 | tagging sets `signature` to the queried selector and changes no other field |
| FourByteDirectory.Parse | ethereum_input_decoder/decoder.py:64-66 | a text fails, with itself as the error, exactly when it has no argument list; a parse is a function with no outputs, tagged with the selector, and otherwise the parse of the text |
| FourByteDirectory.MapUntilFailure | ethereum_input_decoder/decoder.py:63-67 | a generator over a list yields the image of each element in order and stops at the first failing element, raising its error; with no failure every element is yielded |
| FourByteDirectory.PseudoAbiForSighash | ethereum_input_decoder/decoder.py:53-67 | a successful request yields the tagged parses of the directory's texts in order, as `PseudoAbis` states; every record is a function with no outputs tagged with the queried selector; a failed request yields nothing and raises a lookup error |
| FourByteDirectory.Selector | ethereum_input_decoder/decoder.py:77 | the selector is `0x` and two hex digits for each of the first (at most four) bytes |
| FourByteDirectory.Payload | ethereum_input_decoder/decoder.py:82 | the payload is what remains after the first four bytes, empty for shorter input |
| FourByteDirectory.SelectorPayload | ethereum_input_decoder/decoder.py:77-82 | the selector converts back to the first bytes, and those followed by the payload are the whole input |
| FourByteDirectory.Survivors | ethereum_input_decoder/decoder.py:78-85 | the items are exactly the candidates that decode, in order (`Kept`), among those before the first candidate that raises another exception; that candidate's exception ends the stream; with none, every decoding candidate is yielded |
| FourByteDirectory.KeptFits | ethereum_input_decoder/decoder.py:78-85 | the `continue` on DecodingError: the kept candidates are exactly the fitting ones, each taken from the list |
| FourByteDirectory.SurvivorsSummary | ethereum_input_decoder/decoder.py:78-85 | every yielded candidate came from the list and decodes; the loop ends without an exception exactly when no candidate aborts, and then every decoding candidate is yielded; the only exceptions are the KeyError and the codec's own |
| FourByteDirectory.Filtered | ethereum_input_decoder/decoder.py:78-85 | the filtered stream yields, in order, the decoding candidates before the first aborting one, then raises that candidate's exception, or else the exception of the candidate stream |
| FourByteDirectory.FilteredFits | ethereum_input_decoder/decoder.py:78-85 | every item of the filtered stream came from the candidate stream and decodes the payload |
| FourByteDirectory.PseudoAbiForInput | ethereum_input_decoder/decoder.py:69-85 | on a successful request the stream is exactly the directory's parsed candidates that decode the bytes after the first four, in directory order, up to the first exception; each is tagged with the selector of the first four bytes |
| FourByteDirectory.Build | ethereum_input_decoder/decoder.py:220-229 | building a call succeeds exactly when the record's types decode the payload, and then the decoded values are zipped with its inputs; otherwise the KeyError or the codec exception |
| FourByteDirectory.First | ethereum_input_decoder/decoder.py:219-230 | the first item of the stream is taken when it decodes, its decoded values zipped with its inputs; an empty stream re-raises its failure or gives nothing |
| FourByteDirectory.FromInputLookup | ethereum_input_decoder/decoder.py:212-230 | a result is a function record tagged with the input's selector whose types decode the bytes after the selector, with those values zipped with its inputs; a failed request raises the lookup error |
| FourByteDirectory.FilteredFirstVerdict | ethereum_input_decoder/decoder.py:78-85 | the lazy filter followed by the first-item step equals a direct scan for the first text that parses and decodes |
| FourByteDirectory.FromInputLookupIsFirstVerdict | ethereum_input_decoder/decoder.py:212-230 | `from_input_lookup` returns the first directory text that parses and decodes, raises the first exception met before it, or gives nothing |
| Render.Group | ethereum_input_decoder/decoder.py:237-242 | a group is bracketed, and `()` when it lists nothing |
| Render.ArgText | ethereum_input_decoder/decoder.py:239 | an input's text is `(`, its type, `) `, its name, ` = ` and its shown value, each at its own offset |
| Render.OutputText | ethereum_input_decoder/decoder.py:237 | an output's text is `(`, its type, `) ` and its name, each at its own offset |
| Render.NameText | ethereum_input_decoder/decoder.py:241 | `%s` of `self.get("name")` is the name, or `None` when there is none |
| Render.Line | ethereum_input_decoder/decoder.py:241-242 | the line is the type, a space, the name, a space, the inputs, ` returns ` and the outputs, each at its own offset |
| Render.GroupParenthesises | ethereum_input_decoder/decoder.py:237-242 | for non-empty items the group is `(` + items joined by `, ` + `)`, and it is `()` exactly when there are none |
| Render.Describe | ethereum_input_decoder/decoder.py:232-242 | a record without `type` raises KeyError; otherwise the line starts with `type name (`, and a record without outputs ends in ` returns ()` |
| Render.ReadArgText | ethereum_input_decoder/decoder.py:239 | an argument's text `(type) name = value` reads back to its type, name and value |
| Render.DescribeHeader | ethereum_input_decoder/decoder.py:241 | the type and name can be read back from a description when neither contains a space |
| Render.DescribeDefaultConstructor | ethereum_input_decoder/decoder.py:138 | a contract without a constructor describes constructor input as `constructor  () returns ()` |
| Render.DescribeFallback | ethereum_input_decoder/decoder.py:185-187 | a fallback description is `fallback __fallback__ (<args>) returns ()` |

## Left out

- `lookup_signatures` (lines 53-60) is not modelled as HTTP or JSON. The directory is a parameter that returns the
  `text_signature` list, or a failed request. The `timeout` and `proxies` arguments are dropped.
- `eth_abi.decode_abi` is a parameter. Its ABI encoding rules are not part of this model.
- Python's `%r` of a decoded value is a parameter, `show`. Only the `"<nA>"` placeholder is rendered concretely, as `'<nA>'`.
- In Python the dispatch methods set `inputs` on the `AbiMethod` stored in the dictionary and return that very
  object, so a later call that matches the same key overwrites the `inputs` of the object an earlier call
  returned. The model returns a fresh `Call` each time and leaves the dictionary unchanged.
- `ContractAbi` keeps the caller's own list (`self.abi = jsonabi`, line 93), and `_add_method_abi` appends to it
  in place (line 98), so the caller sees the appended entry. In the model the ABI list is a value:
  `SignatureIndex.AddMethodAbi` returns the longer list and nothing else changes.
- Dictionary entries are records with optional `type`, `name`, `inputs`, `outputs` and `signature` fields.
  Other JSON shapes are not modelled: a parameter without `name` or `type`, a non-string `signature`, or
  extra keys.
- Generating a selector with keccak-256 is not modelled; the source leaves it as a todo (line 118).
- The `__main__` module, the package `__init__`, `setup.py` and the example script are not part of this model.
- Hex.Remove0x: the function's own contract gives only bounds. Its value is fixed by `Hex.Remove0xSplit` and
  `Hex.Remove0xUnchanged` together.
- Hex.FromHex: the function's own contract gives only a length bound. Its value is fixed by `Hex.FromHexDigits`,
  `Hex.FromHexConcat`, `Hex.FromHexSkipsSpaces`, `Hex.FromHexRejects`, `Hex.FromHexOddDigits` and
  `Hex.FromHexSplitPair` (whitespace inside a byte pair raises).
- Hex.StrToBytes: `bytes.fromhex` follows Python 3.7 and later, which skip any ASCII whitespace between byte
  pairs. Python 3.0 to 3.6 skipped only the space character there and rejected the other ASCII whitespace.
- Render.Describe: the contract does not give the full line for every call, because value rendering is abstract.
  The complete layout is stated by `Render.Line` and the lemmas beside it.
- FourByteDirectory.FromInputLookup: `from_input_lookup` decodes the winning candidate twice, once in the filter and
  once to build its arguments. The model uses one codec function for both calls, so both give the same answer.
- Sentinel collisions: a function whose `signature` decodes to the bytes of `__constructor__`, `__fallback__` or
  `__event__` would overwrite that sentinel entry in Python. The model keeps this behaviour; no lemma names it.
