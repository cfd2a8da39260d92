/** The parsed BUILD-file syntax tree and the small part of the BUILD library's `Rule`
    and `File` API that the merger calls: `AttrKeys`, `AttrDefn`, `Attr`, `SetAttr`,
    `Kind`, `Name` and `File.Rules`. Every node carries its attached comments. */
module Bzl {
  import opened Wrappers

  /** Comments attached to a node: whole lines before it, trailing comments on its
      line (the suffix) and whole lines after it. */
  datatype Comments = Comments(before: seq<string>, suffix: seq<string>, after: seq<string>)

  const NoComments := Comments([], [], [])

  /** `[a, b, ...]`; ForceMultiLine is a printing hint. */
  datatype ListExpr = ListExpr(elems: seq<Expr>, forceMultiLine: bool, com: Comments)

  /** `{k: v, ...}`; each entry is normally a KeyValue node. */
  datatype DictExpr = DictExpr(entries: seq<Expr>, forceMultiLine: bool, com: Comments)

  datatype Expr =
    | Str(value: string, com: Comments)                      // "text"
    | Literal(token: string, com: Comments)                  // an identifier or number
    | List(list: ListExpr)
    | Dict(dict: DictExpr)
    | KeyValue(key: Expr, val: Expr, com: Comments)          // key: value inside a dict
    | Call(fn: Expr, args: seq<Expr>, com: Comments)         // fn(args)
    | Binary(x: Expr, op: string, y: Expr, com: Comments)    // x op y, including `name = value`
    | Other(com: Comments)                                   // any other syntax
  {
    /** The comments attached to this node. */
    function Comment(): Comments {
      match this
      case List(l) => l.com
      case Dict(d) => d.com
      case _ => com
    }
  }

  /** A parsed BUILD file: its path and its top-level statements in order. */
  datatype File = File(path: string, stmts: seq<Expr>)

  // ---------------------------------------------------------------------------
  // Rule accessors
  // ---------------------------------------------------------------------------

  /** The attribute name an argument defines, when it has the form `name = value`. */
  function AttrKey(a: Expr): (k: Option<string>)
    ensures k.Some? <==> a.Binary? && a.op == "=" && a.x.Literal?
  {
    if a.Binary? && a.op == "=" && a.x.Literal? then Some(a.x.token) else None
  }

  /** `Rule.AttrKeys`: the names of the attribute arguments, in order, repeats included. */
  function AttrKeys(args: seq<Expr>): (keys: seq<string>)
    ensures forall k :: k in keys <==> exists i :: 0 <= i < |args| && AttrKey(args[i]) == Some(k)
  {
    if args == [] then []
    else
      var rest := AttrKeys(args[1..]);
      var keys := (if AttrKey(args[0]).Some? then [AttrKey(args[0]).value] else []) + rest;
      assert forall i :: 0 < i < |args| ==> args[i] == args[1..][i - 1];
      keys
  }

  /** `Rule.AttrDefn`: the first argument `k = value`, if any. */
  function AttrDefn(args: seq<Expr>, k: string): (d: Option<Expr>)
    ensures d.Some? ==> AttrKey(d.value) == Some(k) && d.value in args
    ensures d.None? <==> forall i :: 0 <= i < |args| ==> AttrKey(args[i]) != Some(k)
  {
    if args == [] then None
    else if AttrKey(args[0]) == Some(k) then Some(args[0])
    else
      assert forall i :: 0 < i < |args| ==> args[i] == args[1..][i - 1];
      AttrDefn(args[1..], k)
  }

  /** `Rule.Attr`: the value of the first definition of `k`. */
  function Attr(args: seq<Expr>, k: string): Option<Expr> {
    match AttrDefn(args, k)
    case None => None
    case Some(d) => Some(d.y)
  }

  /** Every listed attribute has a definition. */
  lemma AttrKeysDefined(args: seq<Expr>)
    ensures forall k :: k in AttrKeys(args) ==> AttrDefn(args, k).Some?
  {
    forall k | k in AttrKeys(args) ensures AttrDefn(args, k).Some? {
      var i :| 0 <= i < |args| && AttrKey(args[i]) == Some(k);
    }
  }

  /** `Rule.SetAttr`: overwrite the value of the first definition of `k`, or append
      a new argument `k = v` when there is none. */
  function SetAttr(args: seq<Expr>, k: string, v: Expr): (r: seq<Expr>)
    ensures AttrDefn(args, k).None? ==>
              r == args + [Binary(Literal(k, NoComments), "=", v, NoComments)]
  {
    if args == [] then [Binary(Literal(k, NoComments), "=", v, NoComments)]
    else if AttrKey(args[0]) == Some(k) then [args[0].(y := v)] + args[1..]
    else [args[0]] + SetAttr(args[1..], k, v)
  }

  lemma {:induction false} AttrDefnAppend(a: seq<Expr>, b: seq<Expr>, k: string)
    ensures AttrDefn(a + b, k) == if AttrDefn(a, k).Some? then AttrDefn(a, k) else AttrDefn(b, k)
  {
    if a != [] {
      var ab := a + b;
      assert ab[0] == a[0];
      assert ab[1..] == a[1..] + b;
      AttrDefnAppend(a[1..], b, k);
      if AttrKey(a[0]) == Some(k) {
        assert AttrDefn(ab, k) == Some(a[0]);
      } else {
        assert AttrDefn(ab, k) == AttrDefn(ab[1..], k);
        assert AttrDefn(a, k) == AttrDefn(a[1..], k);
      }
    } else {
      assert a + b == b;
    }
  }

  /** After `SetAttr(args, k, v)`, `k` has value `v` and every other attribute is as before. */
  lemma {:induction false} SetAttrDefn(args: seq<Expr>, k: string, v: Expr, k': string)
    ensures Attr(SetAttr(args, k, v), k) == Some(v)
    ensures k' != k ==> AttrDefn(SetAttr(args, k, v), k') == AttrDefn(args, k')
  {
    if args != [] && AttrKey(args[0]) != Some(k) {
      SetAttrDefn(args[1..], k, v, k');
      var r := SetAttr(args, k, v);
      assert r[0] == args[0] && r[1..] == SetAttr(args[1..], k, v);
    }
  }

  /** `Rule.Kind`: the name of the called function, "" when it is not a plain identifier. */
  function Kind(c: Expr): string
    requires c.Call?
  {
    if c.fn.Literal? then c.fn.token else ""
  }

  /** `Rule.Name`: the string value of the `name` attribute, "" when absent or not a string. */
  function Name(c: Expr): string
    requires c.Call?
  {
    match Attr(c.args, "name")
    case Some(Str(s, _)) => s
    case _ => ""
  }

  /** `File.Rules(kind)`: the call statements of that kind (all calls when kind is ""). */
  function Rules(stmts: seq<Expr>, kind: string): (rules: seq<Expr>)
    ensures forall r :: r in rules ==> r in stmts && r.Call? && (kind == "" || Kind(r) == kind)
    ensures forall s :: s in stmts && s.Call? && (kind == "" || Kind(s) == kind) ==> s in rules
  {
    if stmts == [] then []
    else
      var rest := Rules(stmts[1..], kind);
      assert forall s :: s in stmts ==> s == stmts[0] || s in stmts[1..];
      if stmts[0].Call? && (kind == "" || Kind(stmts[0]) == kind) then [stmts[0]] + rest else rest
  }
}
