/**
 The table compiler's printers (xtask/src/gen_tables.rs): a body's tokens are rendered as a Rust
 array literal and given a Rust array type. The literal is proved to read back as the body's tree
 and to have the printed type.
 */
module TableLiterals {
  import opened Wrappers
  import opened Text
  import opened Numerals
  import opened TableTokens

  /** The nested integer groups a body stands for. */
  datatype Tree = Leaf(v: int) | Group(children: seq<Tree>)

  datatype Element = I8 | I16 | U8 | U16 | I32

  datatype RustType = Scalar(element: Element) | Array(inner: RustType, length: nat)

  predicate FitsElement(v: int, e: Element) {
    match e
    case I8 => -0x80 <= v < 0x80
    case I16 => -0x8000 <= v < 0x8000
    case U8 => 0 <= v < 0x100
    case U16 => 0 <= v < 0x1_0000
    case I32 => -0x8000_0000 <= v < 0x8000_0000
  }

  /** Every integer of the tree fits the element type. */
  predicate Fits(t: Tree, e: Element) {
    match t
    case Leaf(v) => FitsElement(v, e)
    case Group(children) => forall c | c in children :: Fits(c, e)
  }

  // ---------- trees and tokens ----------

  function Toks(t: Tree): (r: seq<Tok>)
    ensures r != [] && r[0] != Close
    decreases t, 1
  {
    match t
    case Leaf(v) => [Int(v)]
    case Group(children) => [Open] + ToksAll(children) + [Close]
  }

  function ToksAll(ts: seq<Tree>): seq<Tok>
    decreases ts, 0
  {
    if ts == [] then [] else Toks(ts[0]) + ToksAll(ts[1..])
  }

  /** Reads one node off the front of the tokens. */
  function ParseNode(ts: seq<Tok>): (r: Option<(Tree, seq<Tok>)>)
    ensures r.Some? ==> |r.value.1| < |ts|
    decreases |ts|, 0
  {
    if ts == [] then None
    else match ts[0]
      case Int(v) => Some((Leaf(v), ts[1..]))
      case Close => None
      case Open =>
        var group := ParseGroup(ts[1..]);
        if group.None? then None else Some((Group(group.value.0), group.value.1))
  }

  /** Reads nodes up to and including the closing brace. */
  function ParseGroup(ts: seq<Tok>): (r: Option<(seq<Tree>, seq<Tok>)>)
    ensures r.Some? ==> |r.value.1| < |ts|
    decreases |ts|, 1
  {
    if ts == [] then None
    else if ts[0] == Close then Some(([], ts[1..]))
    else
      var node := ParseNode(ts);
      if node.None? then None else Before([node.value.0], ParseGroup(node.value.1))
  }

  function Before(trees: seq<Tree>, group: Option<(seq<Tree>, seq<Tok>)>): Option<(seq<Tree>, seq<Tok>)> {
    if group.None? then None else Some((trees + group.value.0, group.value.1))
  }

  lemma BeforeAppend(trees: seq<Tree>, t: Tree, group: Option<(seq<Tree>, seq<Tok>)>)
    ensures Before(trees, Before([t], group)) == Before(trees + [t], group)
    ensures Before([], group) == group
  {
    if group.Some? {
      assert trees + ([t] + group.value.0) == (trees + [t]) + group.value.0;
      assert [] + group.value.0 == group.value.0;
    }
  }

  lemma {:induction false} ParsedIsWritten(ts: seq<Tok>)
    ensures ParseNode(ts).Some? ==> ts == Toks(ParseNode(ts).value.0) + ParseNode(ts).value.1
    decreases |ts|, 0
  {
    if ts != [] && ts[0] == Open && ParseGroup(ts[1..]).Some? {
      ParsedGroupIsWritten(ts[1..]);
      assert ts == [Open] + ts[1..];
    }
  }

  lemma {:induction false} ParsedGroupIsWritten(ts: seq<Tok>)
    ensures ParseGroup(ts).Some? ==> ts == ToksAll(ParseGroup(ts).value.0) + [Close] + ParseGroup(ts).value.1
    decreases |ts|, 1
  {
    if ts != [] && ts[0] != Close && ParseGroup(ts).Some? {
      ParsedIsWritten(ts);
      var (t, rest) := ParseNode(ts).value;
      ParsedGroupIsWritten(rest);
      var trees := ParseGroup(rest).value.0;
      assert ([t] + trees)[1..] == trees;
    }
  }

  lemma {:induction false} WrittenIsParsed(t: Tree, rest: seq<Tok>)
    ensures ParseNode(Toks(t) + rest) == Some((t, rest))
    decreases t, 1
  {
    match t
    case Leaf(v) =>
      assert (Toks(t) + rest)[1..] == rest;
    case Group(children) =>
      WrittenGroupIsParsed(children, rest);
      assert (Toks(t) + rest)[1..] == ToksAll(children) + [Close] + rest;
  }

  lemma {:induction false} WrittenGroupIsParsed(children: seq<Tree>, rest: seq<Tok>)
    ensures ParseGroup(ToksAll(children) + [Close] + rest) == Some((children, rest))
    decreases children, 0
  {
    var ts := ToksAll(children) + [Close] + rest;
    if children == [] {
      assert ts[1..] == rest;
    } else {
      var after := ToksAll(children[1..]) + [Close] + rest;
      assert ts == Toks(children[0]) + after;
      WrittenIsParsed(children[0], after);
      WrittenGroupIsParsed(children[1..], rest);
      assert [children[0]] + children[1..] == children;
    }
  }

  // ---------- rendering ----------

  function Literal(t: Tree): (s: string)
    ensures s != ""
    decreases t, 1
  {
    match t
    case Leaf(v) => IntText(v)
    case Group(children) => "[" + Join(Literals(children), ", ") + "]"
  }

  function Literals(ts: seq<Tree>): (r: seq<string>)
    ensures |r| == |ts|
    decreases ts, 0
  {
    if ts == [] then [] else [Literal(ts[0])] + Literals(ts[1..])
  }

  lemma {:induction false} LiteralsAppend(ts: seq<Tree>, t: Tree)
    ensures Literals(ts + [t]) == Literals(ts) + [Literal(t)]
  {
    if ts == [] {
      assert [] + [t] == [t];
    } else {
      assert (ts + [t])[1..] == ts[1..] + [t];
      LiteralsAppend(ts[1..], t);
    }
  }

  /** The tokens from `idx` parse to a tree that fits, and rendering stops after it. */
  ghost predicate Rendered(toks: seq<Tok>, idx: nat, e: Element, r: Result<string>, next: nat)
    requires idx <= |toks|
  {
    var node := ParseNode(toks[idx..]);
    && (r.Ok? <==> node.Some? && Fits(node.value.0, e))
    && (r.Ok? ==> r.value == Literal(node.value.0) && idx < next <= |toks| && toks[next..] == node.value.1)
  }

  method RenderNode(toks: seq<Tok>, idx: nat, e: Element) returns (r: Result<string>, next: nat)
    requires idx <= |toks|
    ensures Rendered(toks, idx, e, r, next)
    decreases |toks| - idx, 0
  {
    if idx == |toks| { return Err, idx; }
    assert toks[idx..][0] == toks[idx] && toks[idx..][1..] == toks[idx + 1..];
    match toks[idx]
    case Int(v) =>
      if !FitsElement(v, e) { return Err, idx; }
      return Ok(IntText(v)), idx + 1;
    case Close =>
      return Err, idx;
    case Open =>
      var parts: Result<seq<string>>;
      parts, next := RenderGroup(toks, idx + 1, e);
      if parts.Err? { return Err, next; }
      return Ok("[" + Join(parts.value, ", ") + "]"), next;
  }

  method RenderGroup(toks: seq<Tok>, idx: nat, e: Element) returns (r: Result<seq<string>>, next: nat)
    requires idx <= |toks|
    ensures var group := ParseGroup(toks[idx..]);
      && (r.Ok? <==> group.Some? && forall c | c in group.value.0 :: Fits(c, e))
      && (r.Ok? ==> r.value == Literals(group.value.0) && idx < next <= |toks| && toks[next..] == group.value.1)
    decreases |toks| - idx, 1
  {
    var parts := [];
    next := idx;
    ghost var trees := [];
    BeforeAppend([], Leaf(0), ParseGroup(toks[idx..]));
    while true
      invariant idx <= next <= |toks|
      invariant ParseGroup(toks[idx..]) == Before(trees, ParseGroup(toks[next..]))
      invariant parts == Literals(trees) && forall c | c in trees :: Fits(c, e)
      decreases |toks| - next
    {
      if next == |toks| { return Err, next; }
      ghost var left := toks[next..];
      assert left[0] == toks[next] && left[1..] == toks[next + 1..];
      if toks[next] == Close {
        assert trees + [] == trees;
        return Ok(parts), next + 1;
      }
      var part, after := RenderNode(toks, next, e);
      ghost var node := ParseNode(left);
      if part.Err? {
        if node.Some? && ParseGroup(node.value.1).Some? {
          assert node.value.0 in Before(trees, ParseGroup(left)).value.0;
        }
        return Err, next;
      }
      LiteralsAppend(trees, node.value.0);
      BeforeAppend(trees, node.value.0, ParseGroup(node.value.1));
      parts, trees, next := parts + [part.value], trees + [node.value.0], after;
    }
  }

  /** What rendering a body returns: the literal of the one tree its tokens spell, if that fits. */
  ghost predicate RendersTo(body: string, e: Element, literal: string) {
    exists t :: Tokenize(body) == Ok(Toks(t)) && Fits(t, e) && literal == Literal(t)
  }

  method RenderValue(body: string, e: Element) returns (r: Result<string>)
    ensures r.Ok? ==> RendersTo(body, e, r.value)
    ensures r.Err? ==> forall s :: !RendersTo(body, e, s)
  {
    var toks := TokenizeBody(body);
    if toks.Err? { return Err; }
    assert toks.value[0..] == toks.value;
    var s, idx := RenderNode(toks.value, 0, e);
    OneTree(toks.value);
    if s.Err? || idx != |toks.value| {
      forall t | toks.value == Toks(t) ensures !Fits(t, e) {
        WrittenIsParsed(t, []);
        assert Toks(t) + [] == Toks(t);
      }
      return Err;
    }
    return s;
  }

  /** Tokens are one tree exactly when parsing leaves nothing. */
  lemma OneTree(toks: seq<Tok>)
    ensures ParseNode(toks).Some? && ParseNode(toks).value.1 == [] ==> toks == Toks(ParseNode(toks).value.0)
  {
    ParsedIsWritten(toks);
    if ParseNode(toks).Some? && ParseNode(toks).value.1 == [] {
      assert Toks(ParseNode(toks).value.0) + [] == Toks(ParseNode(toks).value.0);
    }
  }

  // ---------- reading the literal back ----------

  /** A reader of Rust array literals: brackets around comma-separated items, and signed integers. */
  function ReadNode(s: string): (r: Option<(Tree, string)>)
    ensures r.Some? ==> |r.value.1| < |s|
    decreases |s|, 0
  {
    if s == "" then None
    else if s[0] == '[' then
      var items := ReadItems(s[1..]);
      if items.None? then None else Some((Group(items.value.0), items.value.1))
    else
      var sign := if s[0] == '-' then 1 else 0;
      var digits := DigitRun(s[sign..]);
      if digits == 0 then None
      else Some((Leaf(Signed(sign == 1, NatValue(s[sign..][..digits]))), s[sign + digits..]))
  }

  /** The items up to and including the closing bracket. */
  function ReadItems(s: string): (r: Option<(seq<Tree>, string)>)
    ensures r.Some? ==> |r.value.1| < |s|
    decreases |s|, 1
  {
    if s == "" then None
    else if s[0] == ']' then Some(([], s[1..]))
    else
      var item := ReadNode(s);
      if item.None? then None
      else
        var rest := item.value.1;
        var more := ReadItems(if StartsWith(rest, ", ") then rest[2..] else rest);
        if more.None? then None else Some(([item.value.0] + more.value.0, more.value.1))
  }

  predicate EndsNumber(rest: string) { rest == "" || !IsDigit(rest[0]) }

  lemma NumberReads(s: string, sign: nat, digits: string, rest: string)
    requires s != "" && s[0] != '[' && sign == (if s[0] == '-' then 1 else 0) && s[sign..] == digits + rest
    requires AllDigits(digits) && digits != "" && (rest == "" || !IsDigit(rest[0]))
    ensures ReadNode(s) == Some((Leaf(Signed(sign == 1, NatValue(digits))), rest))
  {
    hide NatValue, DigitRun;
    DigitRunIs(digits, rest);
    assert s[sign + |digits|..] == s[sign..][|digits|..];
  }

  lemma IntReadsBack(v: int, rest: string)
    requires EndsNumber(rest)
    ensures ReadNode(IntText(v) + rest) == Some((Leaf(v), rest))
  {
    hide ReadNode, NatText, NatValue;
    var digits := NatText(if v < 0 then -v else v);
    NatRoundTrip(if v < 0 then -v else v);
    var s := IntText(v) + rest;
    if v < 0 {
      assert s == "-" + (digits + rest);
      NumberReads(s, 1, digits, rest);
    } else {
      assert s[0] == digits[0] && digits[0] in digits;
      assert s[0..] == digits + rest;
      NumberReads(s, 0, digits, rest);
    }
  }

  lemma {:induction false} LiteralReadsBack(t: Tree, rest: string)
    requires EndsNumber(rest)
    ensures ReadNode(Literal(t) + rest) == Some((t, rest))
    decreases t, 1
  {
    hide Join, Literals, NatValue, DigitRun, IntText;
    match t
    case Leaf(v) => IntReadsBack(v, rest);
    case Group(children) =>
      ItemsReadBack(children, rest);
      assert (Literal(t) + rest)[1..] == Join(Literals(children), ", ") + "]" + rest;
  }

  lemma {:induction false} ItemsReadBack(children: seq<Tree>, rest: string)
    ensures ReadItems(Join(Literals(children), ", ") + "]" + rest) == Some((children, rest))
    decreases children, 0
  {
    var s := Join(Literals(children), ", ") + "]" + rest;
    if children == [] {
      assert s == "]" + rest && s[1..] == rest;
    } else {
      var first, others := Literal(children[0]), children[1..];
      assert [children[0]] + others == children;
      LiteralOpens(children[0]);
      if others == [] {
        var after := "]" + rest;
        assert s == first + after;
        LiteralReadsBack(children[0], after);
        assert after[1..] == rest && !StartsWith(after, ", ");
      } else {
        var left := Join(Literals(others), ", ") + "]" + rest;
        var after := ", " + left;
        assert s == first + after;
        LiteralReadsBack(children[0], after);
        ItemsReadBack(others, rest);
        assert after[2..] == left && after[..2] == ", ";
      }
    }
  }

  lemma LiteralOpens(t: Tree)
    ensures Literal(t)[0] != ']'
  {
    match t
    case Leaf(v) =>
      var digits := NatText(if v < 0 then -v else v);
      assert digits[0] in digits;
    case Group(_) =>
  }

  // ---------- shapes and types ----------

  /** Sibling groups agree at every level: `dims` gives the group length of each level. */
  ghost predicate Rectangular(t: Tree, dims: seq<nat>)
    decreases t
  {
    match t
    case Leaf(_) => dims == []
    case Group(children) =>
      && dims != [] && dims[0] == |children|
      && (children == [] ==> |dims| == 1)
      && forall c | c in children :: Rectangular(c, dims[1..])
  }

  function Shape(t: Tree): Option<seq<nat>>
    decreases t, 1
  {
    match t
    case Leaf(_) => Some([])
    case Group(children) =>
      var child := CommonShape(children);
      if child.None? then None else Some([|children|] + child.value)
  }

  /** The one shape all the trees have; the empty shape when there are none. */
  function CommonShape(ts: seq<Tree>): Option<seq<nat>>
    decreases ts, 0
  {
    if ts == [] then Some([])
    else
      var first := Shape(ts[0]);
      if first.None? then None
      else if |ts| == 1 then first
      else
        var rest := CommonShape(ts[1..]);
        if rest == first then first else None
  }

  lemma {:induction false} ShapeIsRectangle(t: Tree, dims: seq<nat>)
    ensures Shape(t) == Some(dims) <==> Rectangular(t, dims)
    decreases t, 1
  {
    match t
    case Leaf(_) =>
    case Group(children) =>
      if dims != [] { CommonShapeIsRectangle(children, dims[1..]); }
      if Shape(t) == Some(dims) { assert dims[1..] == CommonShape(children).value; }
      if Rectangular(t, dims) { assert dims == [dims[0]] + dims[1..]; }
  }

  lemma {:induction false} CommonShapeIsRectangle(ts: seq<Tree>, dims: seq<nat>)
    ensures CommonShape(ts) == Some(dims)
       <==> (ts == [] ==> dims == []) && forall c | c in ts :: Rectangular(c, dims)
    decreases ts, 0
  {
    if ts != [] {
      ShapeIsRectangle(ts[0], dims);
      CommonShapeIsRectangle(ts[1..], dims);
      assert ts == [ts[0]] + ts[1..];
    }
  }

  function TypeOf(dims: seq<nat>, e: Element): RustType {
    if dims == [] then Scalar(e) else Array(TypeOf(dims[1..], e), dims[0])
  }

  function ElementText(e: Element): string {
    match e
    case I8 => "i8"
    case I16 => "i16"
    case U8 => "u8"
    case U16 => "u16"
    case I32 => "i32"
  }

  function TypeText(ty: RustType): string {
    match ty
    case Scalar(e) => ElementText(e)
    case Array(inner, length) => "[" + TypeText(inner) + "; " + NatText(length) + "]"
  }

  lemma ElementsPrintApart(a: Element, b: Element)
    requires ElementText(a) == ElementText(b)
    ensures a == b
  {
    var s, t := ElementText(a), ElementText(b);
    assert |s| == |t| && s[0] == t[0] && s[1] == t[1];
  }

  lemma ElementHasNoMark(e: Element)
    ensures ';' !in ElementText(e) && ElementText(e) != "" && ElementText(e)[0] != '['
  {}

  lemma {:induction false} TypesPrintApartBefore(a: RustType, r: string, b: RustType, s: string)
    requires TypeText(a) + [';'] + r == TypeText(b) + [';'] + s
    ensures a == b && r == s
  {
    hide ElementText, NatText;
    if a.Scalar? { ElementHasNoMark(a.element); }
    if b.Scalar? { ElementHasNoMark(b.element); }
    if a.Scalar? && b.Scalar? {
      CutIsUnique(ElementText(a.element), r, ElementText(b.element), s, ';');
      ElementsPrintApart(a.element, b.element);
    } else {
      var x, y := TypeText(a) + [';'] + r, TypeText(b) + [';'] + s;
      assert x[0] == TypeText(a)[0] && y[0] == TypeText(b)[0];
      assert a.Array? && b.Array?;
      ArrayTail(a, r);
      ArrayTail(b, s);
      TypesPrintApartBefore(a.inner, LengthTail(a.length, r), b.inner, LengthTail(b.length, s));
      LengthsPrintApart(a.length, r, b.length, s);
    }
  }

  /** What follows the first semicolon of a printed array type. */
  function LengthTail(length: nat, rest: string): string { " " + (NatText(length) + [']'] + (";" + rest)) }

  lemma ArrayTail(a: RustType, rest: string)
    requires a.Array?
    ensures (TypeText(a) + [';'] + rest)[1..] == TypeText(a.inner) + [';'] + LengthTail(a.length, rest)
  {
    hide NatText;
    var inner, number := TypeText(a.inner), NatText(a.length);
    var tail := inner + [';'] + (" " + (number + [']'] + (";" + rest)));
    assert "[" + inner + "; " + number + "]" + [';'] + rest == "[" + tail;
  }

  lemma LengthsPrintApart(m: nat, r: string, n: nat, s: string)
    requires LengthTail(m, r) == LengthTail(n, s)
    ensures m == n && r == s
  {
    hide NatText;
    var x, y := NatText(m) + [']'] + (";" + r), NatText(n) + [']'] + (";" + s);
    assert x == (" " + x)[1..] && y == (" " + y)[1..];
    NumeralHasNo(m, ']');
    NumeralHasNo(n, ']');
    CutIsUnique(NatText(m), ";" + r, NatText(n), ";" + s, ']');
    assert r == (";" + r)[1..] && s == (";" + s)[1..];
    NatRoundTrip(m);
    NatRoundTrip(n);
  }

  /** Two types never print alike. */
  lemma TypesPrintApart(a: RustType, b: RustType)
    requires TypeText(a) == TypeText(b)
    ensures a == b
  {
    TypesPrintApartBefore(a, "", b, "");
  }

  /** Rust's typing of array literals. */
  ghost predicate HasType(t: Tree, ty: RustType)
    decreases t
  {
    match t
    case Leaf(v) => ty.Scalar? && FitsElement(v, ty.element)
    case Group(children) => ty.Array? && |children| == ty.length && forall c | c in children :: HasType(c, ty.inner)
  }

  lemma {:induction false} RectanglesAreTyped(t: Tree, dims: seq<nat>, e: Element)
    requires Rectangular(t, dims) && Fits(t, e)
    ensures HasType(t, TypeOf(dims, e))
    decreases t
  {
    match t
    case Leaf(_) =>
    case Group(children) =>
      forall c | c in children ensures HasType(c, TypeOf(dims[1..], e)) { RectanglesAreTyped(c, dims[1..], e); }
  }

  function LeafCount(t: Tree): nat
    decreases t, 1
  {
    match t
    case Leaf(_) => 1
    case Group(children) => LeafCounts(children)
  }

  function LeafCounts(ts: seq<Tree>): nat
    decreases ts, 0
  {
    if ts == [] then 0 else LeafCount(ts[0]) + LeafCounts(ts[1..])
  }

  function Product(dims: seq<nat>): nat {
    if dims == [] then 1 else dims[0] * Product(dims[1..])
  }

  lemma {:induction false} LeavesFillShape(t: Tree, dims: seq<nat>)
    requires Rectangular(t, dims)
    ensures LeafCount(t) == Product(dims)
    decreases t, 1
  {
    match t
    case Leaf(_) =>
    case Group(children) => LeavesFillShapes(children, dims[1..]);
  }

  lemma {:induction false} LeavesFillShapes(ts: seq<Tree>, dims: seq<nat>)
    requires forall c | c in ts :: Rectangular(c, dims)
    ensures LeafCounts(ts) == |ts| * Product(dims)
    decreases ts, 0
  {
    if ts != [] {
      LeavesFillShape(ts[0], dims);
      LeavesFillShapes(ts[1..], dims);
      assert |ts| * Product(dims) == Product(dims) + |ts[1..]| * Product(dims);
    }
  }

  method ShapeNode(toks: seq<Tok>, idx: nat) returns (r: Result<seq<nat>>, next: nat)
    requires idx <= |toks|
    ensures var node := ParseNode(toks[idx..]);
      && (r.Ok? <==> node.Some? && Shape(node.value.0).Some?)
      && (r.Ok? ==> Shape(node.value.0) == Some(r.value) && idx < next <= |toks| && toks[next..] == node.value.1)
    decreases |toks| - idx, 0
  {
    if idx == |toks| { return Err, idx; }
    assert toks[idx..][0] == toks[idx] && toks[idx..][1..] == toks[idx + 1..];
    match toks[idx]
    case Int(v) =>
      return Ok([]), idx + 1;
    case Close =>
      return Err, idx;
    case Open =>
      var count, child: Option<seq<nat>>;
      var ok;
      ok, count, child, next := ShapeGroup(toks, idx + 1);
      if !ok { return Err, next; }
      return Ok([count] + if child.Some? then child.value else []), next;
  }

  /** The children's number and their common shape; fails on the first that differs. */
  method ShapeGroup(toks: seq<Tok>, idx: nat) returns (ok: bool, count: nat, child: Option<seq<nat>>, next: nat)
    requires idx <= |toks|
    ensures var group := ParseGroup(toks[idx..]);
      && (ok <==> group.Some? && CommonShape(group.value.0).Some?)
      && (ok ==> count == |group.value.0| && idx < next <= |toks| && toks[next..] == group.value.1)
      && (ok ==> CommonShape(group.value.0) == Some(if child.Some? then child.value else []))
    decreases |toks| - idx, 1
  {
    count, child, next := 0, None, idx;
    ghost var trees := [];
    BeforeAppend([], Leaf(0), ParseGroup(toks[idx..]));
    while true
      invariant idx <= next <= |toks| && count == |trees|
      invariant ParseGroup(toks[idx..]) == Before(trees, ParseGroup(toks[next..]))
      invariant child.None? <==> trees == []
      invariant forall t | t in trees :: Shape(t) == child
      decreases |toks| - next
    {
      if next == |toks| { return false, count, child, next; }
      ghost var left := toks[next..];
      assert left[0] == toks[next] && left[1..] == toks[next + 1..];
      if toks[next] == Close {
        assert trees + [] == trees;
        AllAlike(trees, if child.Some? then child.value else []);
        return true, count, child, next + 1;
      }
      var shape, after := ShapeNode(toks, next);
      ghost var node := ParseNode(left);
      if shape.Err? || (child.Some? && child.value != shape.value) {
        if node.Some? && ParseGroup(node.value.1).Some? {
          ghost var all := Before(trees, ParseGroup(left)).value.0;
          assert node.value.0 in all && (trees != [] ==> trees[0] in all);
          Unlike(all, node.value.0, if trees != [] then trees[0] else node.value.0);
        }
        return false, count, child, next;
      }
      BeforeAppend(trees, node.value.0, ParseGroup(node.value.1));
      child, count, next := Some(shape.value), count + 1, after;
      trees := trees + [node.value.0];
    }
  }

  lemma AllAlike(ts: seq<Tree>, dims: seq<nat>)
    requires forall t | t in ts :: Shape(t) == Some(dims)
    requires ts == [] ==> dims == []
    ensures CommonShape(ts) == Some(dims)
  {
    forall t | t in ts ensures Rectangular(t, dims) { ShapeIsRectangle(t, dims); }
    CommonShapeIsRectangle(ts, dims);
  }

  lemma Unlike(ts: seq<Tree>, a: Tree, b: Tree)
    requires a in ts && b in ts && (Shape(a).None? || Shape(a) != Shape(b))
    ensures CommonShape(ts).None?
  {
    if CommonShape(ts).Some? {
      CommonShapeIsRectangle(ts, CommonShape(ts).value);
      ShapeIsRectangle(a, CommonShape(ts).value);
      ShapeIsRectangle(b, CommonShape(ts).value);
    }
  }

  ghost predicate TypedAs(body: string, e: Element, text: string) {
    exists t, dims :: Tokenize(body) == Ok(Toks(t)) && Rectangular(t, dims) && text == TypeText(TypeOf(dims, e))
  }

  method ArrayType(body: string, e: Element) returns (r: Result<string>)
    ensures r.Ok? ==> TypedAs(body, e, r.value)
    ensures r.Err? ==> forall s :: !TypedAs(body, e, s)
  {
    var toks := TokenizeBody(body);
    if toks.Err? { return Err; }
    assert toks.value[0..] == toks.value;
    var dims, idx := ShapeNode(toks.value, 0);
    OneTree(toks.value);
    if dims.Err? || idx != |toks.value| {
      forall t, ds | toks.value == Toks(t) ensures !Rectangular(t, ds) {
        WrittenIsParsed(t, []);
        assert Toks(t) + [] == Toks(t);
        ShapeIsRectangle(t, ds);
      }
      return Err;
    }
    var ty := ElementText(e);
    var i := |dims.value|;
    while i > 0
      invariant 0 <= i <= |dims.value|
      invariant ty == TypeText(TypeOf(dims.value[i..], e))
    {
      i := i - 1;
      assert dims.value[i..][1..] == dims.value[i + 1..] && dims.value[i..][0] == dims.value[i];
      ty := "[" + ty + "; " + NatText(dims.value[i]) + "]";
    }
    assert dims.value[0..] == dims.value;
    ShapeIsRectangle(ParseNode(toks.value).value.0, dims.value);
    return Ok(ty);
  }

  lemma TreeIsUnique(t: Tree, u: Tree)
    requires Toks(t) == Toks(u)
    ensures t == u
  {
    WrittenIsParsed(t, []);
    WrittenIsParsed(u, []);
    assert Toks(t) + [] == Toks(t) && Toks(u) + [] == Toks(u);
  }

  /**
   A table whose value and type are both generated is well typed: the literal reads back as the tree
   the body spells, that tree has the printed type, and its integers number the product of its dimensions.
   */
  lemma GeneratedTableIsSound(body: string, e: Element, literal: string, text: string)
    requires Generated(body, e, literal, text)
    ensures exists t, dims ::
      && Spells(body, Toks(t))
      && ReadNode(literal) == Some((t, ""))
      && text == TypeText(TypeOf(dims, e)) && HasType(t, TypeOf(dims, e))
      && LeafCount(t) == Product(dims)
  {
    var t :| Tokenize(body) == Ok(Toks(t)) && Fits(t, e) && literal == Literal(t);
    var u, dims :| Tokenize(body) == Ok(Toks(u)) && Rectangular(u, dims) && text == TypeText(TypeOf(dims, e));
    TreeIsUnique(t, u);
    TokenizeIsSpelling(body, Toks(t));
    LiteralReadsBack(t, "");
    assert Literal(t) + "" == Literal(t);
    RectanglesAreTyped(t, dims, e);
    LeavesFillShape(t, dims);
  }

  ghost predicate SpellsTable(body: string, t: Tree, dims: seq<nat>, e: Element) {
    Spells(body, Toks(t)) && Fits(t, e) && Rectangular(t, dims)
  }

  ghost predicate Generated(body: string, e: Element, literal: string, text: string) {
    RendersTo(body, e, literal) && TypedAs(body, e, text)
  }

  /** Both are generated exactly for the bodies that spell one rectangular tree of fitting integers. */
  lemma GeneratedExactly(body: string, e: Element)
    ensures (exists literal, text :: Generated(body, e, literal, text))
        <==> exists t, dims :: SpellsTable(body, t, dims, e)
  {
    if literal, text :| Generated(body, e, literal, text) {
      var t :| Tokenize(body) == Ok(Toks(t)) && Fits(t, e) && literal == Literal(t);
      var u, dims :| Tokenize(body) == Ok(Toks(u)) && Rectangular(u, dims) && text == TypeText(TypeOf(dims, e));
      TreeIsUnique(t, u);
      TokenizeIsSpelling(body, Toks(t));
      assert SpellsTable(body, t, dims, e);
    }
    if t, dims :| SpellsTable(body, t, dims, e) {
      TokenizeIsSpelling(body, Toks(t));
      assert Generated(body, e, Literal(t), TypeText(TypeOf(dims, e)));
    }
  }

  // ---------- element types ----------

  function Pow2(n: nat): nat { if n == 0 then 1 else 2 * Pow2(n - 1) }

  /** Rust's name of an integer type, and the integers it holds, by sign and number of bits. */
  lemma ElementIsNamed(e: Element) returns (signed: bool, bits: nat)
    ensures bits in {8, 16, 32}
    ensures ElementText(e) == (if signed then "i" else "u") + NatText(bits)
    ensures forall v :: FitsElement(v, e) <==>
              if signed then 0 - Pow2(bits - 1) <= v < Pow2(bits - 1) else 0 <= v < Pow2(bits)
  {
    signed := e.I8? || e.I16? || e.I32?;
    bits := match e case I8 => 8 case U8 => 8 case I16 => 16 case U16 => 16 case I32 => 32;
    PowersOfTwo();
    BitsInWords();
  }

  lemma PowersOfTwo()
    ensures Pow2(7) == 128 && Pow2(8) == 256 && Pow2(15) == 32768 && Pow2(16) == 65536 && Pow2(31) == 2147483648
  {
    assert Pow2(8) == 256;
    assert Pow2(12) == 16 * Pow2(8);
    assert Pow2(16) == 16 * Pow2(12);
    assert Pow2(20) == 16 * Pow2(16);
    assert Pow2(24) == 16 * Pow2(20);
    assert Pow2(28) == 16 * Pow2(24);
    assert Pow2(31) == 8 * Pow2(28);
  }

  lemma BitsInWords()
    ensures NatText(8) == "8" && NatText(16) == "16" && NatText(32) == "32"
  {
    assert NatText(1) == "1" && NatText(3) == "3";
    assert NatText(16) == NatText(1) + [DigitChar(6)] && NatText(32) == NatText(3) + [DigitChar(2)];
  }
}
