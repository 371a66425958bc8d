/**
 * `FourByteDirectory.parse_text_signature`: a text signature such as
 * `transfer(address,uint256)` from the signature directory becomes a pseudo
 * ABI record of type `function` with positional inputs `arg0`, `arg1`, ...
 * and no outputs.
 */
module TextSignature {
  import opened Wrappers
  import opened Text
  import opened Abi

  /** `"arg%d" % i`. */
  function ArgName(i: nat): string {
    "arg" + NatToString(i)
  }

  /** Positional inputs never share a name. */
  lemma ArgNamesDistinct(i: nat, j: nat)
    requires i != j
    ensures ArgName(i) != ArgName(j)
  {
    if ArgName(i) == ArgName(j) {
      assert ArgName(i)[3..] == NatToString(i);
      assert ArgName(j)[3..] == NatToString(j);
      DecimalRoundTrip(i);
      DecimalRoundTrip(j);
    }
  }

  /** `[{'name': 'arg%d' % i, 'type': t} for i, t in enumerate(types)]`. */
  function Positional(types: seq<string>): (ps: seq<Param>)
    ensures TypesOf(ps) == types
    ensures forall i :: 0 <= i < |ps| ==> ps[i].name == ArgName(i)
  {
    seq(|types|, i requires 0 <= i < |types| => Param(ArgName(i), types[i]))
  }

  /** The positional inputs of a parsed signature never share a name. */
  lemma PositionalNamesDistinct(types: seq<string>)
    ensures forall i, j :: 0 <= i < j < |types| ==> Positional(types)[i].name != Positional(types)[j].name
  {
    forall i, j | 0 <= i < j < |types| ensures Positional(types)[i].name != Positional(types)[j].name {
      ArgNamesDistinct(i, j);
    }
  }

  /** The input types of a raw argument list: stripped, split at every comma, each piece stripped; nothing if blank. */
  function ArgumentTypes(args: string): seq<string> {
    var a := Strip(args);
    if a == "" then []
    else
      var parts := Split(a, ',');
      seq(|parts|, i requires 0 <= i < |parts| => Strip(parts[i]))
  }

  /** The argument types are empty exactly for a blank list; each is stripped and holds no comma. */
  lemma ArgumentTypesPieces(args: string)
    ensures |ArgumentTypes(args)| == 0 <==> Strip(args) == ""
    ensures forall i :: 0 <= i < |ArgumentTypes(args)| ==> ',' !in ArgumentTypes(args)[i] && IsStripped(ArgumentTypes(args)[i])
  {
    var a := Strip(args);
    if a != "" {
      var parts := Split(a, ',');
      forall i | 0 <= i < |parts| ensures ',' !in Strip(parts[i]) {
        StripKeeps(parts[i], ',');
      }
    }
  }

  /** The argument types of a text depend only on its stripped form. */
  lemma StrippedAlike(a: string, b: string)
    requires Strip(a) == Strip(b)
    ensures ArgumentTypes(a) == ArgumentTypes(b)
  {
  }

  /** Some `(` comes before some `)`: the shape both splits need to succeed. */
  predicate HasArgumentList(text: string) {
    exists i, j :: 0 <= i < j < |text| && text[i] == '(' && text[j] == ')'
  }

  /** `p` is the position of the first `(`. */
  predicate OpensAt(text: string, p: int) {
    0 <= p < |text| && text[p] == '(' && forall k :: 0 <= k < p ==> text[k] != '('
  }

  /** `q` is the position of the last `)`. */
  predicate ClosesAt(text: string, q: int) {
    0 <= q < |text| && text[q] == ')' && forall k :: q < k < |text| ==> text[k] != ')'
  }

  /**
   * The two cuts of `parse_text_signature`: `split("(", 1)` at the first
   * `(`, then `rsplit(")", 1)` of the stripped rest at its last `)`. Without
   * a `(`, or without a `)` after it, unpacking the split raises ValueError.
   */
  function SplitSignature(text: string): (r: Option<(string, string)>)
    ensures r.None? <==> !HasArgumentList(text)
    ensures r.Some? ==> FindFirst(text, '(').Some? && FindLast(text, ')').Some?
    ensures r.Some? ==> var p, q := FindFirst(text, '(').value, FindLast(text, ')').value;
      p < q && r.value.0 == text[..p] && ArgumentTypes(r.value.1) == ArgumentTypes(text[p + 1..q])
  {
    match FindFirst(text, '(')
    case None => None
    case Some(p) =>
      var rest := Strip(text[p + 1..]);
      match FindLast(rest, ')')
      case None =>
        NoCloseAfterFirstOpen(text, p);
        None
      case Some(q) =>
        ArgumentListFound(text, p);
        CutsAgree(text, p);
        Some((text[..p], rest[..q]))
  }

  /**
   * `parse_text_signature`. The name is the stripped text before the first
   * `(`; the inputs come from the text between that `(` and the last `)`;
   * anything after the last `)` is dropped.
   */
  function ParseTextSignature(text: string): (r: Result<Descriptor, Error>)
    ensures r.Failure? <==> !HasArgumentList(text)
    ensures r.Failure? ==> r.error == BadTextSignature(text)
    ensures r.Success? ==> r.value.kind == Some("function") && r.value.outputs == Some([])
    ensures r.Success? ==> r.value.signature.None? && r.value.inputs.Some?
    ensures r.Success? ==> FindFirst(text, '(').Some? && FindLast(text, ')').Some?
    ensures r.Success? ==> var p, q := FindFirst(text, '(').value, FindLast(text, ')').value;
      p < q && r.value.name == Some(Strip(text[..p])) && r.value.inputs == Some(Positional(ArgumentTypes(text[p + 1..q])))
  {
    match SplitSignature(text)
    case None => Failure(BadTextSignature(text))
    case Some((name, args)) =>
      Success(Descriptor(Some("function"), Some(Strip(name)), Some(Positional(ArgumentTypes(args))), Some([]), None))
  }

  /** A `(` that is not followed by any `)` rules out every `(`-before-`)` pair. */
  lemma NoCloseAfterFirstOpen(text: string, p: nat)
    requires OpensAt(text, p)
    requires ')' !in Strip(text[p + 1..])
    ensures !HasArgumentList(text)
  {
    StripKeeps(text[p + 1..], ')');
    forall i, j | 0 <= i < j < |text| && text[i] == '(' ensures text[j] != ')' {
      assert text[p + 1..][j - p - 1] == text[j];
    }
  }

  /** A `)` left in the stripped rest after the first `(` is a `)` after it in the text. */
  lemma ArgumentListFound(text: string, p: nat)
    requires OpensAt(text, p) && ')' in Strip(text[p + 1..])
    ensures exists j :: p < j < |text| && text[j] == ')'
    ensures HasArgumentList(text)
  {
    var s := text[p + 1..];
    StripKeeps(s, ')');
    var j :| 0 <= j < |s| && s[j] == ')';
    assert text[p + 1 + j] == ')';
  }

  /**
   * Once the first `(` is at `p` and the stripped rest has a `)`, the last
   * `)` of the text follows `p`, and the argument text the source cuts out
   * gives the types the text between `p` and that `)` gives.
   */
  lemma CutsAgree(text: string, p: nat)
    requires OpensAt(text, p)
    requires FindLast(Strip(text[p + 1..]), ')').Some?
    ensures FindLast(text, ')').Some? && p < FindLast(text, ')').value
    ensures var rest := Strip(text[p + 1..]);
      ArgumentTypes(rest[..FindLast(rest, ')').value]) == ArgumentTypes(text[p + 1..FindLast(text, ')').value])
  {
    ArgumentListFound(text, p);
    var j :| p < j < |text| && text[j] == ')';
    var q := FindLast(text, ')').value;
    assert p < q;
    CutTypes(text, p, q);
  }

  /** The cut at the last `)` of the stripped rest is, once stripped, the cut at the last `)` of the text. */
  lemma CutAt(text: string, p: nat, q: nat)
    requires OpensAt(text, p) && ClosesAt(text, q) && p < q
    ensures FindLast(Strip(text[p + 1..]), ')').Some?
    ensures var rest := Strip(text[p + 1..]);
      Strip(rest[..FindLast(rest, ')').value]) == Strip(text[p + 1..q])
  {
    var s := text[p + 1..];
    var m := q - p - 1;
    assert s[m] == ')';
    forall k | m < k < |s| ensures s[k] != ')' {
      assert s[k] == text[k + p + 1];
    }
    StripThenCut(s, ')', m);
    assert s[..m] == text[p + 1..q];
  }

  /** Both cuts give the same argument types. */
  lemma CutTypes(text: string, p: nat, q: nat)
    requires OpensAt(text, p) && ClosesAt(text, q) && p < q
    ensures FindLast(Strip(text[p + 1..]), ')').Some?
    ensures var rest := Strip(text[p + 1..]);
      ArgumentTypes(rest[..FindLast(rest, ')').value]) == ArgumentTypes(text[p + 1..q])
  {
    CutAt(text, p, q);
    var rest := Strip(text[p + 1..]);
    StrippedAlike(rest[..FindLast(rest, ')').value], text[p + 1..q]);
  }

  /** The canonical text of a signature: `name(t1,t2,...)`. */
  function Format(name: string, types: seq<string>): string {
    name + "(" + Join(types, ",") + ")"
  }

  /** A type expression the naive comma split keeps whole. */
  predicate IsSimpleType(t: string) {
    |t| > 0 && IsStripped(t) && ',' !in t
  }

  /**
   * Parsing the canonical text of a signature recovers its name and its
   * types, positionally named, whenever the name has no `(` and no type has
   * a comma (tuple types do, see `TupleTypesAreSplit`).
   */
  lemma ParseFormat(name: string, types: seq<string>)
    requires IsStripped(name) && '(' !in name
    requires forall i :: 0 <= i < |types| ==> IsSimpleType(types[i])
    ensures ParseTextSignature(Format(name, types))
         == Success(Descriptor(Some("function"), Some(name), Some(Positional(types)), Some([]), None))
  {
    var j := Join(types, ",");
    var text := Format(name, types);
    var p, q := |name|, |text| - 1;
    assert text == name + ['('] + j + [')'];
    assert text[..p] == name;
    assert forall k :: 0 <= k < p ==> text[k] == name[k];
    assert OpensAt(text, p);
    FindFirstAt(text, '(', p);
    FindLastAt(text, ')', q);
    assert text[p + 1..q] == j;
    assert HasArgumentList(text);
    StripStripped(name);
    ArgumentTypesOfJoin(types);
  }

  /** The argument text of a canonical signature splits back into its types. */
  lemma ArgumentTypesOfJoin(types: seq<string>)
    requires forall i :: 0 <= i < |types| ==> IsSimpleType(types[i])
    ensures ArgumentTypes(Join(types, ",")) == types
  {
    var j := Join(types, ",");
    if |types| > 0 {
      assert |j| > 0 && IsStripped(j) by {
        JoinFirst(types, ",");
        JoinLast(types, ",");
      }
      assert Strip(j) == j by {
        StripStripped(j);
      }
      assert Split(j, ',') == types by {
        assert "," == [','];
        SplitJoin(types, ',');
      }
      StripEach(types);
    }
  }

  /** Stripping each of a list of stripped strings changes nothing. */
  lemma StripEach(parts: seq<string>)
    requires forall i :: 0 <= i < |parts| ==> IsStripped(parts[i])
    ensures seq(|parts|, i requires 0 <= i < |parts| => Strip(parts[i])) == parts
  {
    forall i | 0 <= i < |parts| ensures Strip(parts[i]) == parts[i] {
      StripStripped(parts[i]);
    }
  }

  /** An empty argument list, as in `kill()`, gives no inputs. */
  lemma ParseEmptyArgumentList(name: string)
    requires IsStripped(name) && '(' !in name
    ensures ParseTextSignature(name + "()") == Success(Descriptor(Some("function"), Some(name), Some([]), Some([]), None))
  {
    assert Format(name, []) == name + "()";
    assert Positional([]) == [];
    ParseFormat(name, []);
  }

  /**
   * The naive comma split cuts a tuple type at its inner comma: the text
   * `name((a,b),c)` yields the three inputs `(a`, `b)` and `c`.
   */
  lemma TupleTypesAreSplit(name: string, a: string, b: string, c: string)
    requires IsStripped(name) && '(' !in name
    requires IsSimpleType(a) && IsSimpleType(b) && IsSimpleType(c)
    ensures ParseTextSignature(name + "((" + a + "," + b + ")," + c + ")")
         == Success(Descriptor(Some("function"), Some(name),
                               Some([Param(ArgName(0), "(" + a), Param(ArgName(1), b + ")"), Param(ArgName(2), c)]),
                               Some([]), None))
  {
    var types := ["(" + a, b + ")", c];
    assert IsSimpleType("(" + a) by {
      assert ("(" + a)[|"(" + a| - 1] == a[|a| - 1];
    }
    assert IsSimpleType(b + ")") by {
      assert (b + ")")[0] == b[0];
    }
    assert types[1..][1..] == [c];
    assert Join(types[1..], ",") == b + ")" + "," + c;
    assert Join(types, ",") == "(" + a + "," + b + ")," + c;
    assert Format(name, types) == name + "((" + a + "," + b + ")," + c + ")";
    var ps := Positional(types);
    assert |ps| == 3 && ps[0] == Param(ArgName(0), "(" + a) && ps[1] == Param(ArgName(1), b + ")") && ps[2] == Param(ArgName(2), c);
    assert ps == [Param(ArgName(0), "(" + a), Param(ArgName(1), b + ")"), Param(ArgName(2), c)];
    ParseFormat(name, types);
  }
}
