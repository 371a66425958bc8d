/**
 * `AbiMethod.describe`: the one-line text of a decoded call,
 * `<type> <name> (<inputs>) returns (<outputs>)`.
 */
module Render {
  import opened Wrappers
  import opened Text
  import opened Abi
  import Dispatcher

  /** `%r` of an argument's data: the `"<nA>"` marker is quoted; a value is shown by the codec's `repr`. */
  function ShowData<V>(d: Data<V>, show: V -> string): string {
    match d
    case NotAvailable => "'<nA>'"
    case Value(v) => show(v)
  }

  /** `"(%s) %s = %r" % (type, name, data)`: `ReadArgText` reads the three parts back. */
  function ArgText<V>(a: Arg<V>, show: V -> string): (r: string)
    ensures var t, n, v := a.typeName, a.name, ShowData(a.data, show);
      |r| == |t| + |n| + |v| + 6 && r[0] == '(' && r[1..|t| + 1] == t && r[|t| + 1..|t| + 3] == ") "
      && r[|t| + 3..|t| + 3 + |n|] == n && r[|t| + 3 + |n|..|t| + 6 + |n|] == " = " && r[|t| + 6 + |n|..] == v
  {
    "(" + a.typeName + ") " + a.name + " = " + ShowData(a.data, show)
  }

  /** `"(%s) %s" % (type, name)`. */
  function OutputText(p: Param): (r: string)
    ensures var t := p.typeName;
      |r| == |t| + |p.name| + 3 && r[0] == '(' && r[1..|t| + 1] == t && r[|t| + 1..|t| + 3] == ") " && r[|t| + 3..] == p.name
  {
    "(" + p.typeName + ") " + p.name
  }

  /** `"%s" % self.get("name")`: a missing name prints as `None`. */
  function NameText(name: Option<string>): (r: string)
    ensures name.Some? ==> r == name.value
    ensures name.None? ==> r == "None"
  {
    match name
    case None => "None"
    case Some(n) => n
  }

  /** `", ".join(items) if items else ""`, then `"(%s)" % text if text else "()"`. */
  function Group(items: seq<string>): (g: string)
    ensures |g| >= 2 && g[0] == '(' && g[|g| - 1] == ')'
    ensures |items| == 0 ==> g == "()"
  {
    var text := if |items| > 0 then Join(items, ", ") else "";
    if text != "" then "(" + text + ")" else "()"
  }

  /** `"%s %s %s returns %s" % (type, name, inputs, outputs)`. */
  function Line(kind: string, name: string, inputs: string, outputs: string): (r: string)
    ensures var h := |kind| + |name| + 2;
      |r| == h + |inputs| + 9 + |outputs|
      && r[..h] == kind + " " + name + " " && r[h..h + |inputs|] == inputs
      && r[h + |inputs|..] == " returns " + outputs
  {
    kind + " " + name + " " + inputs + " returns " + outputs
  }

  /** A line starts with its type, a space, its name, a space and the inputs' opening bracket. */
  lemma LineHead(kind: string, name: string, inputs: string, outputs: string)
    requires |inputs| > 0 && inputs[0] == '('
    ensures var head := kind + " " + name + " (";
      |head| <= |Line(kind, name, inputs, outputs)| && Line(kind, name, inputs, outputs)[..|head|] == head
  {
    var head := kind + " " + name + " (";
    assert Line(kind, name, inputs, outputs) == (kind + " " + name + " ") + inputs + (" returns " + outputs);
    assert Line(kind, name, inputs, outputs)[..|head|] == (kind + " " + name + " ") + inputs[..1];
  }

  /** A line ends with ` returns ` and its outputs. */
  lemma LineTail(kind: string, name: string, inputs: string, outputs: string)
    ensures var l, tail := Line(kind, name, inputs, outputs), " returns " + outputs;
      |tail| <= |l| && l[|l| - |tail|..] == tail
  {
    var l := Line(kind, name, inputs, outputs);
    assert l == (kind + " " + name + " " + inputs) + (" returns " + outputs);
  }

  function ArgTexts<V>(args: seq<Arg<V>>, show: V -> string): seq<string> {
    seq(|args|, i requires 0 <= i < |args| => ArgText(args[i], show))
  }

  /** The outputs are listed only when the record has a non-empty `outputs` list. */
  function OutputTexts(d: Descriptor): seq<string> {
    match d.outputs
    case None => []
    case Some(ps) => seq(|ps|, i requires 0 <= i < |ps| => OutputText(ps[i]))
  }

  /** `describe()`: a record without `type` raises KeyError. */
  function Describe<V>(c: Call<V>, show: V -> string): (r: Result<string, Error>)
    ensures r.Failure? <==> c.descriptor.kind.None?
    ensures r.Failure? ==> r.error == MissingKey("type")
    ensures r.Success? ==> var head := c.descriptor.kind.value + " " + NameText(c.descriptor.name) + " (";
      |head| <= |r.value| && r.value[..|head|] == head
    ensures r.Success? && (c.descriptor.outputs.None? || c.descriptor.outputs == Some([])) ==>
      |r.value| >= 11 && r.value[|r.value| - 11..] == " returns ()"
  {
    match c.descriptor.kind
    case None => Failure(MissingKey("type"))
    case Some(kind) =>
      var name, inputs, outputs := NameText(c.descriptor.name), Group(ArgTexts(c.args, show)), Group(OutputTexts(c.descriptor));
      LineHead(kind, name, inputs, outputs);
      LineTail(kind, name, inputs, outputs);
      Success(Line(kind, name, inputs, outputs))
  }

  /** Every rendered argument and output is non-empty, so a group is `()` exactly when it lists nothing. */
  lemma GroupParenthesises(items: seq<string>)
    requires forall i :: 0 <= i < |items| ==> |items[i]| > 0
    ensures Group(items) == "(" + Join(items, ", ") + ")"
    ensures Group(items) == "()" <==> |items| == 0
  {
    JoinEmpty(items, ", ");
  }

  /**
   * Reads `(type) name = value` back: the type runs to the first `)`, the
   * name to the next space, and the value follows ` = `.
   */
  function ReadArg(line: string): Option<(string, string, string)> {
    if |line| == 0 || line[0] != '(' then None
    else match FindFirst(line, ')')
      case None => None
      case Some(q) =>
        if q + 1 >= |line| || line[q + 1] != ' ' then None
        else
          var rest := line[q + 2..];
          match FindFirst(rest, ' ')
          case None => None
          case Some(sp) =>
            if sp + 3 <= |rest| && rest[sp + 1] == '=' && rest[sp + 2] == ' '
            then Some((line[1..q], rest[..sp], rest[sp + 3..]))
            else None
  }

  /** The type of an argument line ends at its first `)`. */
  lemma ArgLineType(t: string, rest: string)
    requires ')' !in t
    ensures var line := "(" + t + ") " + rest;
      FindFirst(line, ')') == Some(|t| + 1) && line[1..|t| + 1] == t && line[|t| + 2] == ' ' && line[|t| + 3..] == rest
  {
    var line := "(" + t + ") " + rest;
    assert line == ("(" + t) + [')'] + (" " + rest);
    assert ')' !in "(" + t;
    FindFirstJoin("(" + t, ')', " " + rest);
    assert line[1..|t| + 1] == ("(" + t)[1..];
  }

  /** The name of an argument line ends at the next space, and ` = ` follows it. */
  lemma ArgLineName(n: string, v: string)
    requires ' ' !in n
    ensures var rest := n + " = " + v;
      FindFirst(rest, ' ') == Some(|n|) && rest[..|n|] == n && |n| + 3 <= |rest|
      && rest[|n| + 1] == '=' && rest[|n| + 2] == ' ' && rest[|n| + 3..] == v
  {
    var rest := n + " = " + v;
    assert rest == n + [' '] + ("= " + v);
    FindFirstJoin(n, ' ', "= " + v);
  }

  /** An argument line gives back its type, name and value text when the type has no `)` and the name no space. */
  lemma ReadArgText<V>(a: Arg<V>, show: V -> string)
    requires ')' !in a.typeName && ' ' !in a.name
    ensures ReadArg(ArgText(a, show)) == Some((a.typeName, a.name, ShowData(a.data, show)))
  {
    var t, n, v := a.typeName, a.name, ShowData(a.data, show);
    assert ArgText(a, show) == "(" + t + ") " + (n + " = " + v);
    ArgLineType(t, n + " = " + v);
    ArgLineName(n, v);
  }

  /** Cuts a description at its first two spaces: the record's type, its name, and the rest. */
  function SplitHeader(text: string): Option<(string, string, string)> {
    match FindFirst(text, ' ')
    case None => None
    case Some(i) =>
      var rest := text[i + 1..];
      match FindFirst(rest, ' ')
      case None => None
      case Some(j) => Some((text[..i], rest[..j], rest[j + 1..]))
  }

  /** The first two spaces of `kind name tail` are the ones after `kind` and `name` when neither holds a space. */
  lemma SplitHeaderOf(kind: string, name: string, tail: string)
    requires ' ' !in kind && ' ' !in name
    ensures SplitHeader(kind + " " + name + " " + tail) == Some((kind, name, tail))
  {
    var rest := name + [' '] + tail;
    var text := kind + " " + name + " " + tail;
    assert text == kind + [' '] + rest;
    FindFirstJoin(kind, ' ', rest);
    FindFirstJoin(name, ' ', tail);
  }

  /** A description gives back the record's type and name when neither holds a space. */
  lemma DescribeHeader<V>(c: Call<V>, show: V -> string)
    requires c.descriptor.kind.Some? && ' ' !in c.descriptor.kind.value && ' ' !in NameText(c.descriptor.name)
    ensures Describe(c, show).Success?
    ensures var h := SplitHeader(Describe(c, show).value);
      h.Some? && h.value.0 == c.descriptor.kind.value && h.value.1 == NameText(c.descriptor.name)
      && |h.value.2| > 0 && h.value.2[0] == '('
  {
    var kind, name := c.descriptor.kind.value, NameText(c.descriptor.name);
    var inputs, outputs := Group(ArgTexts(c.args, show)), Group(OutputTexts(c.descriptor));
    var tail := inputs + " returns " + outputs;
    assert Line(kind, name, inputs, outputs) == kind + " " + name + " " + tail;
    SplitHeaderOf(kind, name, tail);
    assert tail[0] == inputs[0];
  }

  /** A contract without a constructor describes its arguments as `constructor  () returns ()` (the name is empty). */
  lemma DescribeDefaultConstructor<V>(show: V -> string)
    ensures Describe(Call(Dispatcher.DefaultConstructor, []), show) == Success("constructor  () returns ()")
  {
    assert ArgTexts<V>([], show) == [];
    assert OutputTexts(Dispatcher.DefaultConstructor) == [];
    assert Line("constructor", "", "()", "()") == "constructor  () returns ()";
  }

  /** A fallback record lists no outputs: its description ends in ` returns ()`. */
  lemma DescribeFallback<V>(args: seq<Arg<V>>, show: V -> string)
    ensures Describe(Call(Dispatcher.FallbackRecord, args), show)
         == Success(Line("fallback", "__fallback__", Group(ArgTexts(args, show)), "()"))
  {
    assert OutputTexts(Dispatcher.FallbackRecord) == [];
  }
}
