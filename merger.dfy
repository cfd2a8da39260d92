/** The BUILD-file merger: reconciles freshly generated rules with the rules of an
    existing BUILD file, keeping what the user marked with `# keep`, the attributes
    outside the mergeable set, comments, and statements the generator does not know. */
module Merger {
  import opened Wrappers
  import opened Strings
  import opened Bzl

  /** A comment starting with this, before or after a top-level statement, means
      the whole file is left alone. */
  const GazelleIgnore := "# gazelle:ignore"

  /** A trailing comment starting with this marks a value the merge must preserve. */
  const Keep := "# keep"

  /** The only attributes whose values are merged; all others are the user's. */
  const MergeableFields: set<string> := {"srcs", "deps", "library"}

  /** The select() case that applies when no other condition does. */
  const DefaultCase := "//conditions:default"

  /** Why an expression could not be merged. */
  datatype MergeError =
    | NotMatched                 // no recognised shape
    | UnknownOperator(op: string)
    | LeftNotList
    | RightNotCall               // not a call with exactly one argument
    | RightNotSelect
    | ArgumentNotDict
    | NotKeyValue                // a dict entry that is not `key: value`
    | KeyNotString
    | ValueNotList
    | DuplicateCase(key: string) // the existing dict names one case twice

  /** Whether a value from the existing file must be preserved: its first trailing
      comment starts with "# keep". */
  predicate ShouldKeep(e: Expr) {
    |e.Comment().suffix| > 0 && HasPrefix(e.Comment().suffix[0], Keep)
  }

  /** The value of a string literal, "" for anything else. */
  function StringValue(e: Expr): string {
    if e.Str? then e.value else ""
  }

  /** Whether any top-level statement has a comment line before or after it that
      starts with "# gazelle:ignore". */
  function ShouldIgnore(stmts: seq<Expr>): (r: bool)
    ensures r <==> exists i :: 0 <= i < |stmts| && IgnoredBy(stmts[i])
  {
    if stmts == [] then false
    else
      assert forall i :: 0 < i < |stmts| ==> stmts[i] == stmts[1..][i - 1];
      IgnoredBy(stmts[0]) || ShouldIgnore(stmts[1..])
  }

  predicate IgnoredBy(s: Expr) {
    (exists c :: c in s.Comment().after && HasPrefix(c, GazelleIgnore)) ||
    (exists c :: c in s.Comment().before && HasPrefix(c, GazelleIgnore))
  }

  // ===========================================================================
  // mergeList
  // ===========================================================================

  /** The keep-marked elements of a list, in their original order. */
  function KeptElems(s: seq<Expr>): (r: seq<Expr>)
    ensures |r| <= |s|
  {
    if s == [] then []
    else
      var last := s[|s| - 1];
      KeptElems(s[..|s| - 1]) + (if ShouldKeep(last) then [last] else [])
  }

  lemma {:induction false} KeptElemsMembers(s: seq<Expr>)
    ensures forall e :: e in KeptElems(s) <==> e in s && ShouldKeep(e)
  {
    if s != [] {
      KeptElemsMembers(s[..|s| - 1]);
      assert s == s[..|s| - 1] + [s[|s| - 1]];
    }
  }

  /** The non-empty string values among a list of elements. */
  function ValuesOf(s: seq<Expr>): set<string> {
    set e | e in s && StringValue(e) != "" :: StringValue(e)
  }

  lemma ValuesOfAppend(s: seq<Expr>, v: Expr)
    ensures ValuesOf(s + [v]) == ValuesOf(s) + (if StringValue(v) != "" then {StringValue(v)} else {})
  {
    assert forall e :: e in s + [v] <==> e in s || e == v;
  }

  /** The elements of `gen`, in order, whose string value is not in `kept`. */
  function NotKept(gen: seq<Expr>, kept: set<string>): (r: seq<Expr>)
    ensures |r| <= |gen|
  {
    if gen == [] then []
    else
      var last := gen[|gen| - 1];
      NotKept(gen[..|gen| - 1], kept) + (if StringValue(last) in kept then [] else [last])
  }

  lemma {:induction false} NotKeptMembers(gen: seq<Expr>, kept: set<string>)
    ensures forall e :: e in NotKept(gen, kept) <==> e in gen && StringValue(e) !in kept
  {
    if gen != [] {
      NotKeptMembers(gen[..|gen| - 1], kept);
      assert gen == gen[..|gen| - 1] + [gen[|gen| - 1]];
    }
  }

  /** mergeList: nil `existing` yields `gen`; otherwise the keep-marked elements of `existing`
      followed by the elements of `gen` whose value is not a kept value, and nil when
      that is empty. */
  function MergedList(gen: Option<ListExpr>, existing: Option<ListExpr>): Option<ListExpr> {
    if existing.None? then gen
    else
      var merged := KeptElems(existing.value.elems) + NotKept(Elems(gen), KeptValues(existing.value.elems));
      if merged == [] then None else Some(ListExpr(merged, false, NoComments))
  }

  /** The elements of a possibly nil list. */
  function Elems(l: Option<ListExpr>): seq<Expr> {
    if l.None? then [] else l.value.elems
  }

  /** The values mergeList records as kept: those of the keep-marked elements. */
  function KeptValues(s: seq<Expr>): set<string> {
    ValuesOf(KeptElems(s))
  }

  lemma KeptElemsStep(s: seq<Expr>, i: nat)
    requires i < |s|
    ensures KeptElems(s[..i + 1]) == KeptElems(s[..i]) + (if ShouldKeep(s[i]) then [s[i]] else [])
  {
    assert s[..i + 1][..i] == s[..i];
  }

  lemma NotKeptStep(gen: seq<Expr>, kept: set<string>, i: nat)
    requires i < |gen|
    ensures NotKept(gen[..i + 1], kept) == NotKept(gen[..i], kept) + (if StringValue(gen[i]) in kept then [] else [gen[i]])
  {
    assert gen[..i + 1][..i] == gen[..i];
  }

  /** The imperative mergeList: one pass over `existing` collecting the kept elements and
      the set of their values, one pass over `gen` skipping the kept values. */
  method MergeList(gen: Option<ListExpr>, existing: Option<ListExpr>) returns (r: Option<ListExpr>)
    ensures r == MergedList(gen, existing)
  {
    if existing.None? {
      return gen;
    }
    var g := if gen.None? then ListExpr([], false, NoComments) else gen.value;
    var o := existing.value.elems;
    var merged: seq<Expr> := [];
    var kept: set<string> := {};
    for i := 0 to |o|
      invariant merged == KeptElems(o[..i])
      invariant kept == ValuesOf(merged)
    {
      var v := o[i];
      KeptElemsStep(o, i);
      if ShouldKeep(v) {
        ValuesOfAppend(merged, v);
        merged := merged + [v];
        var s := StringValue(v);
        if s != "" {
          kept := kept + {s};
        }
      }
    }
    assert o[..|o|] == o;
    ghost var keptElems := merged;
    for i := 0 to |g.elems|
      invariant merged == keptElems + NotKept(g.elems[..i], kept)
    {
      var v := g.elems[i];
      NotKeptStep(g.elems, kept, i);
      if StringValue(v) in kept {
        continue;
      }
      merged := merged + [v];
    }
    assert g.elems[..|g.elems|] == g.elems;
    if |merged| == 0 {
      return None;
    }
    return Some(ListExpr(merged, false, NoComments));
  }

  /** What mergeList keeps and adds, and when it returns nil. */
  lemma MergedListContents(gen: Option<ListExpr>, existing: Option<ListExpr>)
    ensures existing.None? ==> MergedList(gen, existing) == gen
    ensures existing.Some? ==>
      var r := MergedList(gen, existing);
      var kept := KeptElems(existing.value.elems);
      // nil exactly when nothing is kept and nothing is generated
      && (r.None? <==> (forall e :: e in existing.value.elems ==> !ShouldKeep(e)) && Elems(gen) == [])
      && (r.Some? ==>
            // the kept elements come first, in their original order
            && r.value.elems[..|kept|] == kept
            && (forall e :: e in existing.value.elems && ShouldKeep(e) ==> e in r.value.elems)
            // then every generated element whose value is not a kept value, and nothing else
            && (forall e :: e in r.value.elems[|kept|..] <==>
                  e in Elems(gen) && StringValue(e) !in KeptValues(existing.value.elems))
            && !r.value.forceMultiLine && r.value.com == NoComments)
  {
    if existing.Some? {
      var kept := KeptElems(existing.value.elems);
      var added := NotKept(Elems(gen), KeptValues(existing.value.elems));
      KeptElemsMembers(existing.value.elems);
      NotKeptMembers(Elems(gen), KeptValues(existing.value.elems));
      if kept == [] {
        assert KeptValues(existing.value.elems) == {};
        NotKeptMembers(Elems(gen), {});
        assert |added| == 0 ==> Elems(gen) == [] by {
          if Elems(gen) != [] {
            assert Elems(gen)[0] in added;
          }
        }
      }
      var merged := kept + added;
      if kept != [] {
        assert kept[0] in kept;
      }
      if merged != [] {
        assert merged[..|kept|] == kept && merged[|kept|..] == added;
      }
    }
  }

  lemma {:induction false} KeptElemsAppend(a: seq<Expr>, b: seq<Expr>)
    ensures KeptElems(a + b) == KeptElems(a) + KeptElems(b)
    decreases |b|
  {
    if b == [] {
      assert a + b == a;
    } else {
      var b' := b[..|b| - 1];
      assert (a + b)[..|a + b| - 1] == a + b';
      KeptElemsAppend(a, b');
    }
  }

  lemma {:induction false} KeptElemsOfKept(s: seq<Expr>)
    requires forall e :: e in s ==> ShouldKeep(e)
    ensures KeptElems(s) == s
  {
    if s != [] {
      var front := s[..|s| - 1];
      var last := s[|s| - 1];
      assert s == front + [last];
      assert last in s;
      KeptElemsOfKept(front);
    }
  }

  lemma {:induction false} KeptElemsOfUnkept(s: seq<Expr>)
    requires forall e :: e in s ==> !ShouldKeep(e)
    ensures KeptElems(s) == []
  {
    if s != [] {
      KeptElemsOfUnkept(s[..|s| - 1]);
    }
  }

  lemma {:induction false} NotKeptNothing(s: seq<Expr>)
    ensures NotKept(s, {}) == s
  {
    if s != [] {
      NotKeptNothing(s[..|s| - 1]);
      assert s == s[..|s| - 1] + [s[|s| - 1]];
    }
  }

  /** A list as the generator produces it: non-empty, without comments or printing hints. */
  predicate Plain(l: ListExpr) {
    l.elems != [] && !l.forceMultiLine && l.com == NoComments
  }

  /** Merging the same generated list into mergeList's own result changes nothing,
      provided the generated list is Plain (non-empty, no comments, not forced
      multi-line) and its elements carry no "# keep" marker. */
  lemma MergedListIdempotent(gen: Option<ListExpr>, existing: Option<ListExpr>)
    requires forall e :: e in Elems(gen) ==> !ShouldKeep(e)
    requires gen.None? || Plain(gen.value)
    ensures MergedList(gen, MergedList(gen, existing)) == MergedList(gen, existing)
  {
    var m := MergedList(gen, existing);
    if existing.None? {
      if gen.Some? {
        var g := gen.value;
        KeptElemsOfUnkept(g.elems);
        assert KeptValues(g.elems) == {};
        NotKeptNothing(g.elems);
        assert [] + g.elems == g.elems;
        assert g == ListExpr(g.elems, false, NoComments);
      }
    } else if m.Some? {
      var kept := KeptElems(existing.value.elems);
      var added := NotKept(Elems(gen), KeptValues(existing.value.elems));
      KeptElemsMembers(existing.value.elems);
      NotKeptMembers(Elems(gen), KeptValues(existing.value.elems));
      KeptElemsAppend(kept, added);
      KeptElemsOfKept(kept);
      KeptElemsOfUnkept(added);
      assert KeptElems(m.value.elems) == kept;
    }
  }

  /** Without the non-empty condition idempotence fails: an empty generated list
      passes through against a nil existing list, and merging it again into that
      empty result gives nil. */
  lemma MergedListEmptyNotIdempotent(gen: Option<ListExpr>)
    requires gen.Some? && gen.value.elems == []
    ensures MergedList(gen, None) == gen
    ensures MergedList(gen, MergedList(gen, None)) == None
  {
    assert KeptElems([]) == [] && NotKept([], {}) == [];
  }

  /** The example of a keep-marked dependency: existing `["//a:a", "//b:b"  # keep]`
      merged with generated `["//a:a", "//c:c"]` gives `["//b:b", "//a:a", "//c:c"]`. */
  lemma MergedListExample()
    ensures
      var keepIt := Comments([], ["# keep"], []);
      var a, b, c := Str("//a:a", NoComments), Str("//b:b", keepIt), Str("//c:c", NoComments);
      MergedList(Some(ListExpr([a, c], false, NoComments)), Some(ListExpr([a, b], false, NoComments)))
        == Some(ListExpr([b, a, c], false, NoComments))
  {
    var keepIt := Comments([], ["# keep"], []);
    var a, b, c := Str("//a:a", NoComments), Str("//b:b", keepIt), Str("//c:c", NoComments);
    assert ShouldKeep(b) && !ShouldKeep(a);
    assert [a, b][..1] == [a];
    assert KeptElems([a, b]) == [b];
    assert ValuesOf([]) == {};
    ValuesOfAppend([], b);
    assert [] + [b] == [b];
    assert [a, c][..1] == [a];
    assert KeptValues([a, b]) == {"//b:b"};
    assert NotKept([a, c], {"//b:b"}) == [a, c];
    assert [b] + [a, c] == [b, a, c];
  }

  // ===========================================================================
  // exprListAndDict and dictEntryKeyValue
  // ===========================================================================

  /** The list part and the select-dictionary part of an attribute value. */
  datatype Parts = Parts(list: Option<ListExpr>, dict: Option<DictExpr>)

  /** `select(<dict>)`: a call of the identifier `select` with one dict argument. */
  predicate IsSelectOfDict(e: Expr) {
    e.Call? && e.fn.Literal? && e.fn.token == "select" && |e.args| == 1 && e.args[0].Dict?
  }

  /** `[...] + select(<dict>)`. */
  predicate IsListPlusSelect(e: Expr) {
    e.Binary? && e.op == "+" && e.x.List? && IsSelectOfDict(e.y)
  }

  /** exprListAndDict: splits nil, a list, `select(dict)` or `list + select(dict)` into
      its parts; every other shape is an error. */
  function ExprListAndDict(e: Option<Expr>): (r: Result<Parts, MergeError>)
    ensures r.Ok? <==>
              e.None? || e.value.List? || IsSelectOfDict(e.value) || IsListPlusSelect(e.value)
    ensures e.None? ==> r == Ok(Parts(None, None))
    ensures e.Some? && e.value.List? ==> r == Ok(Parts(Some(e.value.list), None))
    ensures e.Some? && IsSelectOfDict(e.value) ==> r == Ok(Parts(None, Some(e.value.args[0].dict)))
    ensures e.Some? && IsListPlusSelect(e.value) ==>
              r == Ok(Parts(Some(e.value.x.list), Some(e.value.y.args[0].dict)))
  {
    if e.None? then Ok(Parts(None, None))
    else
      match e.value
      case List(l) => Ok(Parts(Some(l), None))
      case Call(fn, args, _) =>
        if fn.Literal? && fn.token == "select" && |args| == 1 && args[0].Dict? then
          Ok(Parts(None, Some(args[0].dict)))
        else Err(NotMatched)
      case Binary(x, op, y, _) =>
        if op != "+" then Err(UnknownOperator(op))
        else if !x.List? then Err(LeftNotList)
        else if !y.Call? || |y.args| != 1 then Err(RightNotCall)
        else if !y.fn.Literal? || y.fn.token != "select" then Err(RightNotSelect)
        else if !y.args[0].Dict? then Err(ArgumentNotDict)
        else Ok(Parts(Some(x.list), Some(y.args[0].dict)))
      case _ => Err(NotMatched)
  }

  /** A fresh `select(d)` call. */
  function SelectOf(d: DictExpr): (e: Expr)
    ensures IsSelectOfDict(e)
  {
    Call(Literal("select", NoComments), [Dict(d)], NoComments)
  }

  /** The recombination at the end of mergeExpr: list alone, select alone, or
      `list + select(dict)` with the list forced onto several lines. */
  function Combine(list: Option<ListExpr>, dict: Option<DictExpr>): Option<Expr> {
    if list.None? then (if dict.None? then None else Some(SelectOf(dict.value)))
    else if dict.None? then Some(List(list.value))
    else Some(Binary(List(list.value.(forceMultiLine := true)), "+", SelectOf(dict.value), NoComments))
  }

  /** Whatever Combine builds, exprListAndDict takes apart again into the same parts
      (the list marked multi-line when both parts are present). */
  lemma CombineRoundTrip(list: Option<ListExpr>, dict: Option<DictExpr>)
    ensures var l := if list.Some? && dict.Some? then Some(list.value.(forceMultiLine := true)) else list;
            ExprListAndDict(Combine(list, dict)) == Ok(Parts(l, dict))
  {
  }

  /** One case of a select dictionary. */
  datatype Case = Case(key: string, value: ListExpr)

  /** dictEntryKeyValue: a dict entry must be `"key": [list]`. */
  function DictEntryKeyValue(e: Expr): (r: Result<Case, MergeError>)
    ensures r.Ok? <==> e.KeyValue? && e.key.Str? && e.val.List?
    ensures r.Ok? ==> r.value == Case(e.key.value, e.val.list)
    ensures !e.KeyValue? ==> r == Err(NotKeyValue)
  {
    if !e.KeyValue? then Err(NotKeyValue)
    else if !e.key.Str? then Err(KeyNotString)
    else if !e.val.List? then Err(ValueNotList)
    else Ok(Case(e.key.value, e.val.list))
  }

  // ===========================================================================
  // mergeDict
  // ===========================================================================

  /** The record mergeDict keeps per case while merging (its merged value is computed
      by MergedValue). */
  datatype DictEntry = DictEntry(key: string, oldValue: Option<ListExpr>, genValue: Option<ListExpr>)

  predicate UniqueKeys(es: seq<DictEntry>) {
    forall i, j :: 0 <= i < j < |es| ==> es[i].key != es[j].key
  }

  /** The position of the entry for case `k`. */
  function Find(es: seq<DictEntry>, k: string): (r: Option<nat>)
    ensures r.Some? ==> r.value < |es| && es[r.value].key == k
    ensures r.None? <==> forall i :: 0 <= i < |es| ==> es[i].key != k
  {
    if es == [] then None
    else if es[|es| - 1].key == k then Some(|es| - 1)
    else Find(es[..|es| - 1], k)
  }

  lemma FindUnique(es: seq<DictEntry>, k: string, i: nat)
    requires UniqueKeys(es) && i < |es| && es[i].key == k
    ensures Find(es, k) == Some(i)
  {
  }

  /** The cases of a possibly nil dict. */
  function Entries(d: Option<DictExpr>): seq<Expr> {
    if d.None? then [] else d.value.entries
  }

  /** The first loop of mergeDict: one entry per case of the existing dict, in order;
      an error for a malformed entry or a case named twice. */
  function CollectExisting(kvs: seq<Expr>): (r: Result<seq<DictEntry>, MergeError>)
    ensures r.Ok? ==> UniqueKeys(r.value)
  {
    if kvs == [] then Ok([])
    else
      var es :- CollectExisting(kvs[..|kvs| - 1]);
      var c :- DictEntryKeyValue(kvs[|kvs| - 1]);
      if Find(es, c.key).Some? then Err(DuplicateCase(c.key))
      else Ok(es + [DictEntry(c.key, Some(c.value), None)])
  }

  /** The second loop of mergeDict: each generated case sets the generated value of its
      entry, adding an entry for a case the existing dict lacks; a later generated
      case overwrites an earlier one with the same key. */
  function AddGenerated(es: seq<DictEntry>, kvs: seq<Expr>): (r: Result<seq<DictEntry>, MergeError>)
    requires UniqueKeys(es)
    ensures r.Ok? ==> UniqueKeys(r.value)
  {
    if kvs == [] then Ok(es)
    else
      var es' :- AddGenerated(es, kvs[..|kvs| - 1]);
      var c :- DictEntryKeyValue(kvs[|kvs| - 1]);
      match Find(es', c.key)
      case Some(i) => Ok(es'[i := es'[i].(genValue := Some(c.value))])
      case None => Ok(es' + [DictEntry(c.key, None, Some(c.value))])
  }

  /** The merged list of one case; the default case is kept as an empty list. */
  function MergedValue(e: DictEntry): Option<ListExpr> {
    var m := MergedList(e.genValue, e.oldValue);
    if e.key == DefaultCase && m.None? then Some(ListExpr([], false, NoComments)) else m
  }

  /** The non-default cases whose merged list is not nil, in entry order. */
  function LiveKeys(es: seq<DictEntry>): (keys: seq<string>)
    ensures |keys| <= |es|
  {
    if es == [] then []
    else
      var e := es[|es| - 1];
      LiveKeys(es[..|es| - 1]) + (if e.key != DefaultCase && MergedValue(e).Some? then [e.key] else [])
  }

  /** The merged list stored for case `k`. */
  function MergedFor(es: seq<DictEntry>, k: string): ListExpr {
    match Find(es, k)
    case Some(i) => (match MergedValue(es[i]) case Some(l) => l case None => ListExpr([], false, NoComments))
    case None => ListExpr([], false, NoComments)
  }

  /** The output entries `"k": merged list` for the given keys, in that order. */
  function CaseEntries(es: seq<DictEntry>, keys: seq<string>): (r: seq<Expr>)
    ensures |r| == |keys|
  {
    if keys == [] then []
    else
      var k := keys[|keys| - 1];
      CaseEntries(es, keys[..|keys| - 1]) + [KeyValue(Str(k, NoComments), List(MergedFor(es, k)), NoComments)]
  }

  /** The rest of mergeDict: nil when no non-default case survives and the default case
      is absent or empty; otherwise the surviving cases sorted, then the default case. */
  function Assemble(es: seq<DictEntry>): Option<DictExpr> {
    var keys := LiveKeys(es);
    var def := Find(es, DefaultCase);
    if |keys| == 0 && (def.None? || MergedFor(es, DefaultCase).elems == []) then None
    else Some(DictExpr(CaseEntries(es, AssembledKeys(es)), true, NoComments))
  }

  /** mergeDict as a function: nil `existing` yields `gen`. */
  function MergedDict(gen: Option<DictExpr>, existing: Option<DictExpr>): Result<Option<DictExpr>, MergeError> {
    if existing.None? then Ok(gen)
    else
      var es0 :- CollectExisting(existing.value.entries);
      var es :- AddGenerated(es0, Entries(gen));
      Ok(Assemble(es))
  }

  /** entryMap indexes the entries by case. */
  ghost predicate IndexesEntries(entryMap: map<string, nat>, es: seq<DictEntry>) {
    forall k :: (k in entryMap <==> Find(es, k).Some?) && (k in entryMap ==> Find(es, k) == Some(entryMap[k]))
  }

  lemma {:induction false} FindUpdate(es: seq<DictEntry>, i: nat, x: DictEntry, k: string)
    requires i < |es| && x.key == es[i].key
    ensures Find(es[i := x], k) == Find(es, k)
  {
    if i < |es| - 1 {
      assert es[i := x][..|es| - 1] == es[..|es| - 1][i := x];
      FindUpdate(es[..|es| - 1], i, x, k);
    } else {
      assert es[i := x][..|es| - 1] == es[..|es| - 1];
    }
  }

  lemma {:induction false} CollectErrPersists(kvs: seq<Expr>, n: nat)
    requires n <= |kvs| && CollectExisting(kvs[..n]).Err?
    ensures CollectExisting(kvs) == CollectExisting(kvs[..n])
  {
    if n < |kvs| {
      var front := kvs[..|kvs| - 1];
      assert front[..n] == kvs[..n];
      CollectErrPersists(front, n);
    } else {
      assert kvs[..n] == kvs;
    }
  }

  lemma {:induction false} AddGeneratedErrPersists(es: seq<DictEntry>, kvs: seq<Expr>, n: nat)
    requires UniqueKeys(es)
    requires n <= |kvs| && AddGenerated(es, kvs[..n]).Err?
    ensures AddGenerated(es, kvs) == AddGenerated(es, kvs[..n])
  {
    if n < |kvs| {
      var front := kvs[..|kvs| - 1];
      assert front[..n] == kvs[..n];
      AddGeneratedErrPersists(es, front, n);
    } else {
      assert kvs[..n] == kvs;
    }
  }

  /** Appending the entry for a new case extends the index with its position. */
  lemma IndexAppend(entryMap: map<string, nat>, es: seq<DictEntry>, e: DictEntry)
    requires IndexesEntries(entryMap, es) && e.key !in entryMap
    ensures IndexesEntries(entryMap[e.key := |es|], es + [e])
  {
    forall k ensures Find(es + [e], k) == if e.key == k then Some(|es|) else Find(es, k) {
      FindAppend(es, e, k);
    }
  }

  /** Updating an entry in place, keeping its case, leaves the index valid. */
  lemma IndexUpdate(entryMap: map<string, nat>, es: seq<DictEntry>, j: nat, x: DictEntry)
    requires IndexesEntries(entryMap, es) && j < |es| && x.key == es[j].key
    ensures IndexesEntries(entryMap, es[j := x])
  {
    forall k ensures Find(es[j := x], k) == Find(es, k) {
      FindUpdate(es, j, x, k);
    }
  }

  lemma CaseEntriesStep(es: seq<DictEntry>, keys: seq<string>, i: nat)
    requires i < |keys|
    ensures CaseEntries(es, keys[..i + 1]) ==
              CaseEntries(es, keys[..i]) + [KeyValue(Str(keys[i], NoComments), List(MergedFor(es, keys[i])), NoComments)]
  {
    assert keys[..i + 1][..i] == keys[..i];
  }

  lemma CollectStep(kvs: seq<Expr>, i: nat, entries: seq<DictEntry>)
    requires i < |kvs| && CollectExisting(kvs[..i]) == Ok(entries)
    ensures var c := DictEntryKeyValue(kvs[i]);
      CollectExisting(kvs[..i + 1]) ==
        if c.Err? then Err(c.error)
        else if Find(entries, c.value.key).Some? then Err(DuplicateCase(c.value.key))
        else Ok(entries + [DictEntry(c.value.key, Some(c.value.value), None)])
  {
    assert kvs[..i + 1][..i] == kvs[..i];
  }

  /** The first loop of mergeDict, with the index from case to entry position. */
  method CollectEntries(kvs: seq<Expr>) returns (r: Result<seq<DictEntry>, MergeError>, entryMap: map<string, nat>)
    ensures r == CollectExisting(kvs)
    ensures r.Ok? ==> IndexesEntries(entryMap, r.value)
  {
    var entries: seq<DictEntry> := [];
    entryMap := map[];
    for i := 0 to |kvs|
      invariant CollectExisting(kvs[..i]) == Ok(entries)
      invariant IndexesEntries(entryMap, entries)
    {
      CollectStep(kvs, i, entries);
      var c := DictEntryKeyValue(kvs[i]);
      if c.Err? {
        CollectErrPersists(kvs, i + 1);
        return Err(c.error), entryMap;
      }
      var k := c.value.key;
      if k in entryMap {
        CollectErrPersists(kvs, i + 1);
        return Err(DuplicateCase(k)), entryMap;
      }
      var e := DictEntry(k, Some(c.value.value), None);
      IndexAppend(entryMap, entries, e);
      entryMap := entryMap[k := |entries|];
      entries := entries + [e];
    }
    assert kvs[..|kvs|] == kvs;
    return Ok(entries), entryMap;
  }

  lemma AddGeneratedStep(es: seq<DictEntry>, kvs: seq<Expr>, i: nat, entries: seq<DictEntry>)
    requires UniqueKeys(es) && i < |kvs| && AddGenerated(es, kvs[..i]) == Ok(entries)
    requires DictEntryKeyValue(kvs[i]).Ok?
    ensures var c := DictEntryKeyValue(kvs[i]).value;
      AddGenerated(es, kvs[..i + 1]) ==
        match Find(entries, c.key)
        case Some(j) => Ok(entries[j := entries[j].(genValue := Some(c.value))])
        case None => Ok(entries + [DictEntry(c.key, None, Some(c.value))])
  {
    assert kvs[..i + 1][..i] == kvs[..i];
  }

  /** The second loop of mergeDict, keeping the index up to date. */
  method AddGeneratedEntries(es: seq<DictEntry>, entryMap: map<string, nat>, kvs: seq<Expr>)
    returns (r: Result<seq<DictEntry>, MergeError>, entryMap': map<string, nat>)
    requires UniqueKeys(es) && IndexesEntries(entryMap, es)
    ensures r == AddGenerated(es, kvs)
    ensures r.Ok? ==> IndexesEntries(entryMap', r.value)
  {
    var entries := es;
    entryMap' := entryMap;
    for i := 0 to |kvs|
      invariant AddGenerated(es, kvs[..i]) == Ok(entries)
      invariant IndexesEntries(entryMap', entries)
    {
      var c := DictEntryKeyValue(kvs[i]);
      if c.Err? {
        assert kvs[..i + 1][..i] == kvs[..i];
        AddGeneratedErrPersists(es, kvs, i + 1);
        return Err(c.error), entryMap';
      }
      AddGeneratedStep(es, kvs, i, entries);
      var k := c.value.key;
      if k in entryMap' {
        var j := entryMap'[k];
        var updated := entries[j].(genValue := Some(c.value.value));
        IndexUpdate(entryMap', entries, j, updated);
        entries := entries[j := updated];
      } else {
        var e := DictEntry(k, None, Some(c.value.value));
        IndexAppend(entryMap', entries, e);
        entryMap' := entryMap'[k := |entries|];
        entries := entries + [e];
      }
    }
    assert kvs[..|kvs|] == kvs;
    return Ok(entries), entryMap';
  }

  lemma LiveKeysStep(es: seq<DictEntry>, i: nat)
    requires i < |es|
    ensures LiveKeys(es[..i + 1]) ==
              LiveKeys(es[..i]) + (if es[i].key != DefaultCase && MergedValue(es[i]).Some? then [es[i].key] else [])
  {
    assert es[..i + 1][..i] == es[..i];
  }

  /** The third loop of mergeDict: the merged value of every entry, the surviving
      non-default keys in entry order and whether a default case exists. */
  method MergeValues(es: seq<DictEntry>)
    returns (merged: seq<Option<ListExpr>>, keys: seq<string>, haveDefault: bool)
    ensures |merged| == |es| && forall j :: 0 <= j < |es| ==> merged[j] == MergedValue(es[j])
    ensures keys == LiveKeys(es)
    ensures haveDefault <==> Find(es, DefaultCase).Some?
  {
    keys := [];
    merged := [];
    haveDefault := false;
    for i := 0 to |es|
      invariant keys == LiveKeys(es[..i])
      invariant |merged| == i && forall j :: 0 <= j < i ==> merged[j] == MergedValue(es[j])
      invariant haveDefault <==> Find(es[..i], DefaultCase).Some?
    {
      var m;
      m, keys, haveDefault := MergeValuesStep(es, i, keys, haveDefault);
      merged := merged + [m];
    }
    assert es[..|es|] == es;
  }

  /** One iteration of the third loop of mergeDict, for entry `i`. */
  method MergeValuesStep(es: seq<DictEntry>, i: nat, keys: seq<string>, haveDefault: bool)
    returns (m: Option<ListExpr>, keys': seq<string>, haveDefault': bool)
    requires i < |es| && keys == LiveKeys(es[..i])
    requires haveDefault <==> Find(es[..i], DefaultCase).Some?
    ensures m == MergedValue(es[i])
    ensures keys' == LiveKeys(es[..i + 1])
    ensures haveDefault' <==> Find(es[..i + 1], DefaultCase).Some?
  {
    LiveKeysStep(es, i);
    FindStep(es, i, DefaultCase);
    keys', haveDefault' := keys, haveDefault;
    var e := es[i];
    m := MergeEntry(e);
    if e.key == DefaultCase {
      haveDefault' := true;
    } else if m.Some? {
      keys' := keys + [e.key];
    }
  }

  /** The merged value of one entry, as the third loop computes it. */
  method MergeEntry(e: DictEntry) returns (m: Option<ListExpr>)
    ensures m == MergedValue(e)
  {
    m := MergeList(e.genValue, e.oldValue);
    if e.key == DefaultCase && m.None? {
      // The default case stands even when its merged list is nil: it becomes [].
      m := Some(ListExpr([], false, NoComments));
    }
  }

  lemma FindStep(es: seq<DictEntry>, i: nat, k: string)
    requires i < |es|
    ensures Find(es[..i + 1], k) == if es[i].key == k then Some(i) else Find(es[..i], k)
  {
    assert es[..i + 1][..i] == es[..i];
  }

  /** Looking a case with an entry up in the index gives that entry's position. */
  lemma CaseLookup(es: seq<DictEntry>, entryMap: map<string, nat>, k: string)
    requires IndexesEntries(entryMap, es) && Find(es, k).Some?
    ensures k in entryMap && entryMap[k] == Find(es, k).value
  {
  }

  /** The last loop of mergeDict: one `"k": list` entry per key, in the given order. */
  method BuildCases(es: seq<DictEntry>, entryMap: map<string, nat>, merged: seq<Option<ListExpr>>, keys: seq<string>)
    returns (r: seq<Expr>)
    requires IndexesEntries(entryMap, es)
    requires |merged| == |es| && forall j :: 0 <= j < |es| ==> merged[j] == MergedValue(es[j])
    requires forall k :: k in keys ==> Find(es, k).Some? && MergedValue(es[Find(es, k).value]).Some?
    ensures r == CaseEntries(es, keys)
  {
    r := [];
    for i := 0 to |keys|
      invariant r == CaseEntries(es, keys[..i])
    {
      CaseEntriesStep(es, keys, i);
      assert keys[i] in keys;
      CaseLookup(es, entryMap, keys[i]);
      MergedForIs(es, keys[i]);
      var j := entryMap[keys[i]];
      r := r + [KeyValue(Str(es[j].key, NoComments), List(merged[j].value), NoComments)];
    }
    assert keys[..|keys|] == keys;
  }

  /** The imperative mergeDict: entries and an index by case are built from the
      existing dict, then from the generated dict; each entry's merged value is
      computed with MergeList; the surviving keys are sorted and the default case
      appended. */
  method MergeDict(gen: Option<DictExpr>, existing: Option<DictExpr>)
    returns (r: Result<Option<DictExpr>, MergeError>)
    ensures r == MergedDict(gen, existing)
  {
    if existing.None? {
      return Ok(gen);
    }
    var g := if gen.None? then DictExpr([], false, NoComments) else gen.value;
    assert g.entries == Entries(gen);
    var collected, entryMap := CollectEntries(existing.value.entries);
    if collected.Err? {
      return Err(collected.error);
    }
    var added, entryMap' := AddGeneratedEntries(collected.value, entryMap, g.entries);
    if added.Err? {
      return Err(added.error);
    }
    var entries := added.value;
    assert MergedDict(gen, existing) == Ok(Assemble(entries));
    var d := AssembleDict(entries, entryMap');
    return Ok(d);
  }

  /** The rest of mergeDict: the merged values are computed, and the surviving keys are
      sorted with the default case appended, unless nothing survives. */
  method AssembleDict(es: seq<DictEntry>, entryMap: map<string, nat>) returns (d: Option<DictExpr>)
    requires UniqueKeys(es) && IndexesEntries(entryMap, es)
    ensures d == Assemble(es)
  {
    var merged, keys, haveDefault := MergeValues(es);
    if haveDefault {
      assert merged[entryMap[DefaultCase]].value == MergedFor(es, DefaultCase);
    }
    if |keys| == 0 && (!haveDefault || |merged[entryMap[DefaultCase]].value.elems| == 0) {
      return None;
    }
    var ordered := Sort(keys) + if haveDefault then [DefaultCase] else [];
    assert ordered == AssembledKeys(es);
    forall k | k in ordered
      ensures Find(es, k).Some? && MergedValue(es[Find(es, k).value]).Some?
    {
      AssembledKeysIff(es, k);
    }
    var cases := BuildCases(es, entryMap, merged, ordered);
    return Some(DictExpr(cases, true, NoComments));
  }

  // ---------------------------------------------------------------------------
  // What mergeDict computes, case by case
  // ---------------------------------------------------------------------------

  /** `e` is a well-formed entry `"k": [...]` for case `k`. */
  predicate IsCase(e: Expr, k: string) {
    DictEntryKeyValue(e).Ok? && DictEntryKeyValue(e).value.key == k
  }

  /** The list of the last well-formed entry for case `k`, if any. */
  function CaseValue(kvs: seq<Expr>, k: string): (r: Option<ListExpr>)
    ensures r.Some? ==> exists i :: 0 <= i < |kvs| && IsCase(kvs[i], k)
  {
    if kvs == [] then None
    else
      var c := DictEntryKeyValue(kvs[|kvs| - 1]);
      if c.Ok? && c.value.key == k then Some(c.value.value)
      else
        var r := CaseValue(kvs[..|kvs| - 1], k);
        assert forall i :: 0 <= i < |kvs| - 1 ==> kvs[..|kvs| - 1][i] == kvs[i];
        r
  }

  lemma {:induction false} CaseValueNone(kvs: seq<Expr>, k: string)
    requires CaseValue(kvs, k).None?
    ensures forall i :: 0 <= i < |kvs| ==> !IsCase(kvs[i], k)
  {
    if kvs != [] {
      CaseValueNone(kvs[..|kvs| - 1], k);
      assert forall i :: 0 <= i < |kvs| - 1 ==> kvs[..|kvs| - 1][i] == kvs[i];
    }
  }

  /** The existing and generated lists recorded for case `k`. */
  function OldOf(es: seq<DictEntry>, k: string): Option<ListExpr> {
    match Find(es, k)
    case Some(i) => es[i].oldValue
    case None => None
  }

  function GenOf(es: seq<DictEntry>, k: string): Option<ListExpr> {
    match Find(es, k)
    case Some(i) => es[i].genValue
    case None => None
  }

  lemma FindAppend(es: seq<DictEntry>, e: DictEntry, k: string)
    ensures Find(es + [e], k) == if e.key == k then Some(|es|) else Find(es, k)
  {
    assert (es + [e])[..|es|] == es;
  }

  /** The first loop records each existing case with its list and no generated list. */
  lemma {:induction false} CollectExistingCases(kvs: seq<Expr>, k: string)
    requires CollectExisting(kvs).Ok?
    ensures Find(CollectExisting(kvs).value, k).Some? <==> CaseValue(kvs, k).Some?
    ensures OldOf(CollectExisting(kvs).value, k) == CaseValue(kvs, k)
    ensures GenOf(CollectExisting(kvs).value, k) == None
  {
    if kvs != [] {
      var front := kvs[..|kvs| - 1];
      CollectExistingCases(front, k);
      var es := CollectExisting(front).value;
      var c := DictEntryKeyValue(kvs[|kvs| - 1]).value;
      FindAppend(es, DictEntry(c.key, Some(c.value), None), k);
    }
  }

  /** The second loop keeps each entry's existing list, sets the generated list of
      every generated case (the last entry for a case wins) and adds missing cases. */
  lemma {:induction false} AddGeneratedCases(es: seq<DictEntry>, kvs: seq<Expr>, k: string)
    requires UniqueKeys(es) && AddGenerated(es, kvs).Ok?
    ensures Find(AddGenerated(es, kvs).value, k).Some? <==> Find(es, k).Some? || CaseValue(kvs, k).Some?
    ensures OldOf(AddGenerated(es, kvs).value, k) == OldOf(es, k)
    ensures GenOf(AddGenerated(es, kvs).value, k) ==
              if CaseValue(kvs, k).Some? then CaseValue(kvs, k) else GenOf(es, k)
  {
    if kvs != [] {
      var front := kvs[..|kvs| - 1];
      AddGeneratedCases(es, front, k);
      var es1 := AddGenerated(es, front).value;
      var c := DictEntryKeyValue(kvs[|kvs| - 1]).value;
      match Find(es1, c.key)
      case Some(i) =>
        var es2 := es1[i := es1[i].(genValue := Some(c.value))];
        FindUpdate(es1, i, es1[i].(genValue := Some(c.value)), k);
        if k != c.key && Find(es1, k).Some? {
          assert Find(es1, k).value != i;
        }
      case None =>
        FindAppend(es1, DictEntry(c.key, None, Some(c.value)), k);
    }
  }

  /** The live keys are exactly the non-default cases whose merged list is not nil. */
  lemma {:induction false} LiveKeysIff(es: seq<DictEntry>, k: string)
    requires UniqueKeys(es)
    ensures k in LiveKeys(es) <==>
              k != DefaultCase && Find(es, k).Some? && MergedValue(es[Find(es, k).value]).Some?
  {
    if es != [] {
      var front := es[..|es| - 1];
      var e := es[|es| - 1];
      assert es == front + [e];
      assert UniqueKeys(front);
      LiveKeysIff(front, k);
      FindAppend(front, e, k);
      if e.key == k {
        assert forall i :: 0 <= i < |front| ==> front[i].key != k;
      } else if Find(front, k).Some? {
        assert es[Find(front, k).value] == front[Find(front, k).value];
      }
    }
  }

  /** The entries built for `keys` give each listed key its merged list. */
  lemma {:induction false} CaseEntriesValue(es: seq<DictEntry>, keys: seq<string>, k: string)
    ensures CaseValue(CaseEntries(es, keys), k) == if k in keys then Some(MergedFor(es, k)) else None
  {
    if keys != [] {
      var front := keys[..|keys| - 1];
      CaseEntriesValue(es, front, k);
      assert keys == front + [keys[|keys| - 1]];
      var r := CaseEntries(es, keys);
      assert r[..|r| - 1] == CaseEntries(es, front);
    }
  }

  /** The case `k` of the assembled dict holds the merged list of its entry. */
  lemma AssembleCases(es: seq<DictEntry>, k: string)
    requires UniqueKeys(es) && Assemble(es).Some?
    ensures CaseValue(Assemble(es).value.entries, k) ==
              if Find(es, k).Some? then MergedValue(es[Find(es, k).value]) else None
  {
    var ordered := AssembledKeys(es);
    CaseEntriesValue(es, ordered, k);
    AssembledKeysIff(es, k);
    if Find(es, k).Some? && MergedValue(es[Find(es, k).value]).Some? {
      MergedForIs(es, k);
    }
  }

  /** The keys Assemble emits, in order. */
  function AssembledKeys(es: seq<DictEntry>): seq<string> {
    Sort(LiveKeys(es)) + (if Find(es, DefaultCase).Some? then [DefaultCase] else [])
  }

  /** A key is assembled exactly when its entry exists and merges to a list. */
  lemma AssembledKeysIff(es: seq<DictEntry>, k: string)
    requires UniqueKeys(es)
    ensures k in AssembledKeys(es) <==> Find(es, k).Some? && MergedValue(es[Find(es, k).value]).Some?
  {
    LiveKeysIff(es, k);
    SortMembers(LiveKeys(es), k);
    if k == DefaultCase && Find(es, k).Some? {
      assert es[Find(es, k).value].key == DefaultCase;
    }
  }

  lemma MergedForIs(es: seq<DictEntry>, k: string)
    requires Find(es, k).Some? && MergedValue(es[Find(es, k).value]).Some?
    ensures MergedFor(es, k) == MergedValue(es[Find(es, k).value]).value
  {
  }

  /** The merged list of case `k` given its generated and existing lists: nil when the
      case is in neither dict; the default case is never nil. */
  function CombinedCase(gen: Option<ListExpr>, existing: Option<ListExpr>, k: string): Option<ListExpr> {
    if gen.None? && existing.None? then None else MergedValue(DictEntry(k, existing, gen))
  }

  /** Every case of the dict mergeDict returns holds the merged list of that case's
      generated and existing lists, and no other case appears. */
  lemma MergedDictCases(gen: Option<DictExpr>, existing: Option<DictExpr>, k: string)
    requires existing.Some? && MergedDict(gen, existing).Ok? && MergedDict(gen, existing).value.Some?
    ensures CaseValue(MergedDict(gen, existing).value.value.entries, k) ==
              CombinedCase(CaseValue(Entries(gen), k), CaseValue(existing.value.entries, k), k)
  {
    var es0 := CollectExisting(existing.value.entries).value;
    var es := AddGenerated(es0, Entries(gen)).value;
    EntriesCombined(gen, existing, k);
    AssembleCases(es, k);
  }

  /** The merged value of the entry the first two loops build for case `k`. */
  lemma EntriesCombined(gen: Option<DictExpr>, existing: Option<DictExpr>, k: string)
    requires existing.Some? && MergedDict(gen, existing).Ok?
    ensures var es := AddGenerated(CollectExisting(existing.value.entries).value, Entries(gen)).value;
      (if Find(es, k).Some? then MergedValue(es[Find(es, k).value]) else None) ==
      CombinedCase(CaseValue(Entries(gen), k), CaseValue(existing.value.entries, k), k)
  {
    var es0 := CollectExisting(existing.value.entries).value;
    var es := AddGenerated(es0, Entries(gen)).value;
    CollectExistingCases(existing.value.entries, k);
    AddGeneratedCases(es0, Entries(gen), k);
    if Find(es, k).Some? {
      assert es[Find(es, k).value] == DictEntry(k, OldOf(es, k), GenOf(es, k));
    }
  }

  /** No case of either dict survives: each merges to nil, or is the default case
      and merges to an empty list. */
  ghost predicate NothingSurvives(gen: Option<DictExpr>, existing: Option<DictExpr>)
    requires existing.Some?
  {
    forall k ::
      CombinedCase(CaseValue(Entries(gen), k), CaseValue(existing.value.entries, k), k).None? ||
      (k == DefaultCase && CombinedCase(CaseValue(Entries(gen), k), CaseValue(existing.value.entries, k), k).value.elems == [])
  }

  /** mergeDict returns nil exactly when no case survives the merge. */
  lemma MergedDictNil(gen: Option<DictExpr>, existing: Option<DictExpr>)
    requires existing.Some? && MergedDict(gen, existing).Ok?
    ensures MergedDict(gen, existing).value.None? <==> NothingSurvives(gen, existing)
  {
    var es0 := CollectExisting(existing.value.entries).value;
    var es := AddGenerated(es0, Entries(gen)).value;
    assert MergedDict(gen, existing) == Ok(Assemble(es));
    if Assemble(es).None? {
      forall k ensures
        CombinedCase(CaseValue(Entries(gen), k), CaseValue(existing.value.entries, k), k).None? ||
        (k == DefaultCase && CombinedCase(CaseValue(Entries(gen), k), CaseValue(existing.value.entries, k), k).value.elems == [])
      {
        EntriesCombined(gen, existing, k);
        LiveKeysIff(es, k);
      }
    } else if NothingSurvives(gen, existing) {
      if |LiveKeys(es)| > 0 {
        var k := LiveKeys(es)[0];
        EntriesCombined(gen, existing, k);
        LiveKeysIff(es, k);
      } else {
        EntriesCombined(gen, existing, DefaultCase);
      }
    }
  }

  /** The case name of a dict entry ("" when it is not `"k": ...`). */
  function CaseKey(e: Expr): string {
    if e.KeyValue? && e.key.Str? then e.key.value else ""
  }

  /** The non-default cases come in strictly ascending order, and the default case,
      if present, comes last. */
  predicate CasesOrdered(entries: seq<Expr>) {
    forall i, j :: 0 <= i < j < |entries| ==>
      CaseKey(entries[i]) != DefaultCase &&
      (CaseKey(entries[j]) == DefaultCase || Less(CaseKey(entries[i]), CaseKey(entries[j])))
  }

  lemma {:induction false} CaseEntriesAt(es: seq<DictEntry>, keys: seq<string>)
    ensures forall i :: 0 <= i < |keys| ==>
              CaseEntries(es, keys)[i] == KeyValue(Str(keys[i], NoComments), List(MergedFor(es, keys[i])), NoComments)
  {
    if keys != [] {
      var front := keys[..|keys| - 1];
      CaseEntriesAt(es, front);
    }
  }

  lemma {:induction false} LiveKeysDistinct(es: seq<DictEntry>)
    requires UniqueKeys(es)
    ensures Distinct(LiveKeys(es))
  {
    if es != [] {
      var front := es[..|es| - 1];
      var e := es[|es| - 1];
      assert UniqueKeys(front);
      LiveKeysDistinct(front);
      LiveKeysIff(front, e.key);
      assert forall i :: 0 <= i < |front| ==> front[i].key != e.key;
      assert e.key !in LiveKeys(front);
    }
  }

  /** Entries built for strictly ascending non-default keys, optionally followed by
      the default case, are ordered. */
  lemma CaseEntriesOrdered(es: seq<DictEntry>, sorted: seq<string>, ordered: seq<string>)
    requires StrictlyAscending(sorted) && DefaultCase !in sorted
    requires ordered == sorted || ordered == sorted + [DefaultCase]
    ensures CasesOrdered(CaseEntries(es, ordered))
  {
    CaseEntriesAt(es, ordered);
    var r := CaseEntries(es, ordered);
    assert forall i :: 0 <= i < |r| ==> CaseKey(r[i]) == ordered[i];
  }

  /** Sorting the live keys gives strictly ascending keys without the default case. */
  lemma SortedLiveKeys(es: seq<DictEntry>)
    requires UniqueKeys(es)
    ensures StrictlyAscending(Sort(LiveKeys(es))) && DefaultCase !in Sort(LiveKeys(es))
  {
    var live := LiveKeys(es);
    var sorted := Sort(live);
    LiveKeysDistinct(es);
    assert Distinct(sorted) by {
      forall x ensures multiset(sorted)[x] <= 1 {
        assert multiset(sorted)[x] == multiset(live)[x];
      }
    }
    SortedDistinctAscending(sorted);
    LiveKeysIff(es, DefaultCase);
    assert DefaultCase in sorted ==> DefaultCase in multiset(live);
  }

  lemma AssembleShape(es: seq<DictEntry>)
    requires UniqueKeys(es) && Assemble(es).Some?
    ensures var d := Assemble(es).value;
      d.forceMultiLine &&
      (forall i :: 0 <= i < |d.entries| ==> d.entries[i].KeyValue? && d.entries[i].key.Str? && d.entries[i].val.List?) &&
      CasesOrdered(d.entries)
  {
    var sorted := Sort(LiveKeys(es));
    var ordered := AssembledKeys(es);
    CaseEntriesAt(es, ordered);
    SortedLiveKeys(es);
    CaseEntriesOrdered(es, sorted, ordered);
  }

  /** The dict mergeDict returns is multi-line, every entry is `"k": [...]`, and the
      cases are ordered with the default case last. */
  lemma MergedDictShape(gen: Option<DictExpr>, existing: Option<DictExpr>)
    requires existing.Some? && MergedDict(gen, existing).Ok? && MergedDict(gen, existing).value.Some?
    ensures var d := MergedDict(gen, existing).value.value;
      d.forceMultiLine &&
      (forall i :: 0 <= i < |d.entries| ==> d.entries[i].KeyValue? && d.entries[i].key.Str? && d.entries[i].val.List?) &&
      CasesOrdered(d.entries)
  {
    var es0 := CollectExisting(existing.value.entries).value;
    var es := AddGenerated(es0, Entries(gen)).value;
    assert MergedDict(gen, existing) == Ok(Assemble(es));
    AssembleShape(es);
  }

  /** Every entry is a well-formed `"k": [...]`. */
  predicate AllCases(kvs: seq<Expr>) {
    forall i :: 0 <= i < |kvs| ==> DictEntryKeyValue(kvs[i]).Ok?
  }

  /** No case is named by two well-formed entries. */
  predicate DistinctCases(kvs: seq<Expr>) {
    forall i, j :: 0 <= i < j < |kvs| && DictEntryKeyValue(kvs[i]).Ok? ==> !IsCase(kvs[j], DictEntryKeyValue(kvs[i]).value.key)
  }

  lemma AllCasesSnoc(front: seq<Expr>, last: Expr)
    ensures AllCases(front + [last]) <==> AllCases(front) && DictEntryKeyValue(last).Ok?
  {
    var kvs := front + [last];
    assert forall i :: 0 <= i < |front| ==> kvs[i] == front[i];
    assert kvs[|front|] == last;
  }

  lemma DistinctCasesSnoc(front: seq<Expr>, last: Expr)
    ensures DistinctCases(front + [last]) <==>
              DistinctCases(front) &&
              (DictEntryKeyValue(last).Ok? ==>
                 forall i :: 0 <= i < |front| ==> !IsCase(front[i], DictEntryKeyValue(last).value.key))
  {
    var kvs := front + [last];
    assert forall i :: 0 <= i < |front| ==> kvs[i] == front[i];
    assert kvs[|front|] == last;
  }

  lemma {:induction false} CollectExistingOk(kvs: seq<Expr>)
    ensures CollectExisting(kvs).Ok? <==> AllCases(kvs) && DistinctCases(kvs)
  {
    if kvs != [] {
      var front := kvs[..|kvs| - 1];
      var last := kvs[|kvs| - 1];
      assert kvs == front + [last];
      CollectExistingOk(front);
      AllCasesSnoc(front, last);
      DistinctCasesSnoc(front, last);
      if CollectExisting(front).Ok? && DictEntryKeyValue(last).Ok? {
        var k := DictEntryKeyValue(last).value.key;
        CollectExistingCases(front, k);
        if CaseValue(front, k).None? {
          CaseValueNone(front, k);
        }
      }
    }
  }

  lemma {:induction false} AddGeneratedOk(es: seq<DictEntry>, kvs: seq<Expr>)
    requires UniqueKeys(es)
    ensures AddGenerated(es, kvs).Ok? <==> AllCases(kvs)
  {
    if kvs != [] {
      var front := kvs[..|kvs| - 1];
      assert kvs == front + [kvs[|kvs| - 1]];
      AddGeneratedOk(es, front);
      assert AllCases(kvs) <==> AllCases(front) && DictEntryKeyValue(kvs[|kvs| - 1]).Ok?;
    }
  }

  /** mergeDict fails exactly when an existing entry is malformed, two existing entries
      name the same case, or a generated entry is malformed; a nil existing dict
      never fails. */
  lemma MergedDictOk(gen: Option<DictExpr>, existing: Option<DictExpr>)
    ensures MergedDict(gen, existing).Ok? <==>
              existing.None? ||
              (AllCases(existing.value.entries) && DistinctCases(existing.value.entries) && AllCases(Entries(gen)))
  {
    if existing.Some? {
      CollectExistingOk(existing.value.entries);
      if CollectExisting(existing.value.entries).Ok? {
        AddGeneratedOk(CollectExisting(existing.value.entries).value, Entries(gen));
      }
    }
  }

  // ===========================================================================
  // mergeExpr
  // ===========================================================================

  /** mergeExpr as a function: a generated string replaces the existing value unless
      that is keep-marked; otherwise both sides are split into list and select parts,
      which are merged separately and recombined. */
  function MergedExpr(gen: Option<Expr>, existing: Expr): Result<Option<Expr>, MergeError> {
    if gen.Some? && gen.value.Str? then
      Ok(if ShouldKeep(existing) then Some(existing) else gen)
    else
      var g :- ExprListAndDict(gen);
      var o :- ExprListAndDict(Some(existing));
      var dict :- MergedDict(g.dict, o.dict);
      Ok(Combine(MergedList(g.list, o.list), dict))
  }

  method MergeExpr(gen: Option<Expr>, existing: Expr) returns (r: Result<Option<Expr>, MergeError>)
    ensures r == MergedExpr(gen, existing)
  {
    if gen.Some? && gen.value.Str? {
      if ShouldKeep(existing) {
        return Ok(Some(existing));
      }
      return Ok(gen);
    }
    var g :- ExprListAndDict(gen);
    var o :- ExprListAndDict(Some(existing));
    var list := MergeList(g.list, o.list);
    var dict :- MergeDict(g.dict, o.dict);
    return Ok(Combine(list, dict));
  }

  /** A merged non-string value is again of a shape mergeExpr recognises, and splitting
      it gives back the merged list (marked multi-line when a select follows it) and
      the merged dict. */
  lemma MergedExprParts(gen: Option<Expr>, existing: Expr)
    requires gen.None? || !gen.value.Str?
    requires MergedExpr(gen, existing).Ok?
    ensures ExprListAndDict(gen).Ok? && ExprListAndDict(Some(existing)).Ok?
    ensures var g := ExprListAndDict(gen).value;
            var o := ExprListAndDict(Some(existing)).value;
            var l := MergedList(g.list, o.list);
            var d := MergedDict(g.dict, o.dict);
            d.Ok? &&
            ExprListAndDict(MergedExpr(gen, existing).value) ==
              Ok(Parts(if l.Some? && d.value.Some? then Some(l.value.(forceMultiLine := true)) else l, d.value))
  {
    var g := ExprListAndDict(gen).value;
    var o := ExprListAndDict(Some(existing)).value;
    CombineRoundTrip(MergedList(g.list, o.list), MergedDict(g.dict, o.dict).value);
  }

  // ===========================================================================
  // mergeRule
  // ===========================================================================

  /** An argument of the form `x = y`, whatever `x` is. */
  predicate IsAssignment(a: Expr) {
    a.Binary? && a.op == "="
  }

  /** The arguments before the first `x = y`: the unnamed arguments mergeRule copies. */
  function Positional(args: seq<Expr>): (r: seq<Expr>)
    ensures r <= args
    ensures forall i :: 0 <= i < |r| ==> !IsAssignment(r[i])
    ensures |r| < |args| ==> IsAssignment(args[|r|])
  {
    if args == [] || IsAssignment(args[0]) then []
    else
      var r := [args[0]] + Positional(args[1..]);
      assert args == [args[0]] + args[1..];
      r
  }

  /** The value of a mergeable attribute after merging, nil when it is dropped: the
      merged expression, or the generated value when the two cannot be merged. */
  function MergedAttrValue(genArgs: seq<Expr>, existingValue: Expr, k: string): Option<Expr> {
    match MergedExpr(Attr(genArgs, k), existingValue)
    case Ok(m) => m
    case Err(_) => Attr(genArgs, k)
  }

  /** What the existing definition `defn` of attribute `k` becomes: itself when `k` is
      not mergeable; otherwise the same definition (comments included) with the merged
      value, or nothing when that is nil. */
  function MergedAttr(genArgs: seq<Expr>, defn: Expr, k: string): (r: Option<Expr>)
    requires defn.Binary?
    ensures r.Some? ==> r.value.Binary? && r.value.x == defn.x && r.value.op == defn.op
    ensures k !in MergeableFields ==> r == Some(defn)
  {
    if k !in MergeableFields then Some(defn)
    else
      match MergedAttrValue(genArgs, defn.y, k)
      case Some(m) => Some(defn.(y := m))
      case None => None
  }

  /** The second loop of mergeRule: one argument per key of the existing rule, each
      built from the key's first definition. */
  function MergedAttrs(genArgs: seq<Expr>, existingArgs: seq<Expr>, keys: seq<string>): seq<Expr>
    requires forall k :: k in keys ==> AttrDefn(existingArgs, k).Some?
  {
    if keys == [] then []
    else
      var k := keys[|keys| - 1];
      MergedAttrs(genArgs, existingArgs, keys[..|keys| - 1]) +
        match MergedAttr(genArgs, AttrDefn(existingArgs, k).value, k)
        case Some(a) => [a]
        case None => []
  }

  /** The third loop of mergeRule: every generated attribute the merged rule still
      lacks is set to its generated value. */
  function AddGenAttrs(args: seq<Expr>, genArgs: seq<Expr>, keys: seq<string>): seq<Expr>
    requires forall k :: k in keys ==> AttrDefn(genArgs, k).Some?
  {
    if keys == [] then args
    else
      var a := AddGenAttrs(args, genArgs, keys[..|keys| - 1]);
      var k := keys[|keys| - 1];
      if Attr(a, k).None? then SetAttr(a, k, Attr(genArgs, k).value) else a
  }

  /** mergeRule as a function: the existing call with its unnamed arguments, its
      attributes merged with the generated ones, then the generated attributes it
      lacked. */
  function MergedRule(gen: Expr, existing: Expr): Expr
    requires gen.Call? && existing.Call?
  {
    var attrs := MergedAttrs(gen.args, existing.args, AttrKeys(existing.args));
    existing.(args := AddGenAttrs(Positional(existing.args) + attrs, gen.args, AttrKeys(gen.args)))
  }

  /** The first loop of mergeRule: copy the unnamed arguments. */
  method CopyPositional(args: seq<Expr>) returns (r: seq<Expr>)
    ensures r == Positional(args)
  {
    r := [];
    var i := 0;
    while i < |args| && !IsAssignment(args[i])
      invariant i <= |args|
      invariant r == args[..i]
      invariant forall j :: 0 <= j < i ==> !IsAssignment(args[j])
    {
      r := r + [args[i]];
      i := i + 1;
    }
    assert |Positional(args)| == i;
  }

  /** The body of the second loop for one key: copy a non-mergeable attribute, or merge
      its value, falling back to the generated value when the merge fails. */
  method MergeOneAttr(genArgs: seq<Expr>, defn: Expr, k: string) returns (a: Option<Expr>)
    requires defn.Binary?
    ensures a == MergedAttr(genArgs, defn, k)
  {
    if k !in MergeableFields {
      return Some(defn);
    }
    var genExpr := Attr(genArgs, k);
    var m := MergeExpr(genExpr, defn.y);
    var mergedExpr := if m.Ok? then m.value else genExpr;
    if mergedExpr.Some? {
      return Some(defn.(y := mergedExpr.value));
    }
    return None;
  }

  lemma MergedAttrsStep(genArgs: seq<Expr>, existingArgs: seq<Expr>, keys: seq<string>, j: nat)
    requires j < |keys| && forall k :: k in keys ==> AttrDefn(existingArgs, k).Some?
    ensures forall k :: k in keys[..j + 1] ==> AttrDefn(existingArgs, k).Some?
    ensures MergedAttrs(genArgs, existingArgs, keys[..j + 1]) ==
              MergedAttrs(genArgs, existingArgs, keys[..j]) +
              match MergedAttr(genArgs, AttrDefn(existingArgs, keys[j]).value, keys[j])
              case Some(a) => [a]
              case None => []
  {
    assert keys[..j + 1][..j] == keys[..j];
  }

  /** The second loop of mergeRule: merge the attributes of the existing rule, keeping
      their comments. */
  method MergeAttrs(genArgs: seq<Expr>, existingArgs: seq<Expr>) returns (r: seq<Expr>)
    ensures r == MergedAttrs(genArgs, existingArgs, AttrKeys(existingArgs))
  {
    r := [];
    var keys := AttrKeys(existingArgs);
    for j := 0 to |keys|
      invariant r == MergedAttrs(genArgs, existingArgs, keys[..j])
    {
      MergedAttrsStep(genArgs, existingArgs, keys, j);
      var k := keys[j];
      var a := MergeOneAttr(genArgs, AttrDefn(existingArgs, k).value, k);
      if a.Some? {
        r := r + [a.value];
      }
    }
    assert keys[..|keys|] == keys;
  }

  lemma AddGenAttrsStep(args: seq<Expr>, genArgs: seq<Expr>, keys: seq<string>, j: nat)
    requires j < |keys| && forall k :: k in keys ==> AttrDefn(genArgs, k).Some?
    ensures forall k :: k in keys[..j + 1] ==> AttrDefn(genArgs, k).Some?
    ensures var a := AddGenAttrs(args, genArgs, keys[..j]);
            AddGenAttrs(args, genArgs, keys[..j + 1]) ==
              if Attr(a, keys[j]).None? then SetAttr(a, keys[j], Attr(genArgs, keys[j]).value) else a
  {
    assert keys[..j + 1][..j] == keys[..j];
  }

  /** The third loop of mergeRule: add the generated attributes not processed yet. */
  method AddGeneratedAttrs(args: seq<Expr>, genArgs: seq<Expr>) returns (r: seq<Expr>)
    ensures r == AddGenAttrs(args, genArgs, AttrKeys(genArgs))
  {
    r := args;
    var genKeys := AttrKeys(genArgs);
    AttrKeysDefined(genArgs);
    for j := 0 to |genKeys|
      invariant forall k :: k in genKeys[..j] ==> AttrDefn(genArgs, k).Some?
      invariant r == AddGenAttrs(args, genArgs, genKeys[..j])
    {
      AddGenAttrsStep(args, genArgs, genKeys, j);
      var k := genKeys[j];
      assert AttrDefn(genArgs, k).Some?;
      if Attr(r, k).None? {
        r := SetAttr(r, k, Attr(genArgs, k).value);
      }
    }
    assert genKeys[..|genKeys|] == genKeys;
  }

  /** mergeRule: a copy of the existing call whose arguments are rebuilt by the three
      loops. */
  method MergeRule(gen: Expr, existing: Expr) returns (r: Expr)
    requires gen.Call? && existing.Call?
    ensures r == MergedRule(gen, existing)
  {
    var positional := CopyPositional(existing.args);
    var attrs := MergeAttrs(gen.args, existing.args);
    var args := AddGeneratedAttrs(positional + attrs, gen.args);
    return existing.(args := args);
  }

  /** The definition of attribute `k` the merged rule carries, attribute by attribute:
      the existing definition as MergedAttr transforms it, or else a new `k = v` with
      the generated value, or else none. */
  function ExpectedDefn(gen: Expr, existing: Expr, k: string): Option<Expr>
    requires gen.Call? && existing.Call?
  {
    var kept := match AttrDefn(existing.args, k)
      case Some(d) => MergedAttr(gen.args, d, k)
      case None => None;
    if kept.Some? then kept
    else
      match Attr(gen.args, k)
      case Some(v) => Some(Binary(Literal(k, NoComments), "=", v, NoComments))
      case None => None
  }

  lemma {:induction false} MergedAttrsDefn(genArgs: seq<Expr>, existingArgs: seq<Expr>, keys: seq<string>, k: string)
    requires forall k :: k in keys ==> AttrDefn(existingArgs, k).Some?
    ensures AttrDefn(MergedAttrs(genArgs, existingArgs, keys), k) ==
              if k in keys then MergedAttr(genArgs, AttrDefn(existingArgs, k).value, k) else None
  {
    if keys != [] {
      var front := keys[..|keys| - 1];
      var k' := keys[|keys| - 1];
      assert forall x :: x in keys <==> x in front || x == k' by {
        assert keys == front + [k'];
      }
      MergedAttrsDefn(genArgs, existingArgs, front, k);
      var prev := MergedAttrs(genArgs, existingArgs, front);
      var d := AttrDefn(existingArgs, k').value;
      var m := MergedAttr(genArgs, d, k');
      var tail := if m.Some? then [m.value] else [];
      assert MergedAttrs(genArgs, existingArgs, keys) == prev + tail;
      AttrDefnAppend(prev, tail, k);
      if m.Some? {
        assert AttrKey(m.value) == AttrKey(d) == Some(k');
        assert AttrDefn(tail, k) == if k == k' then Some(m.value) else None;
      } else {
        assert AttrDefn(tail, k) == None;
      }
    }
  }

  lemma {:induction false} AddGenAttrsDefn(args: seq<Expr>, genArgs: seq<Expr>, keys: seq<string>, k: string)
    requires forall k :: k in keys ==> AttrDefn(genArgs, k).Some?
    ensures args <= AddGenAttrs(args, genArgs, keys)
    ensures AttrDefn(AddGenAttrs(args, genArgs, keys), k) ==
              if AttrDefn(args, k).Some? then AttrDefn(args, k)
              else if k in keys then Some(Binary(Literal(k, NoComments), "=", Attr(genArgs, k).value, NoComments))
              else None
  {
    if keys != [] {
      var front := keys[..|keys| - 1];
      var k' := keys[|keys| - 1];
      assert forall x :: x in keys <==> x in front || x == k' by {
        assert keys == front + [k'];
      }
      AddGenAttrsDefn(args, genArgs, front, k);
      AddGenAttrsDefn(args, genArgs, front, k');
      var a := AddGenAttrs(args, genArgs, front);
      if Attr(a, k').None? {
        DefnAfterAppend(a, k', Attr(genArgs, k').value, k);
      }
    }
  }

  /** Appending a new definition of `k'` to arguments that lack one. */
  lemma DefnAfterAppend(a: seq<Expr>, k': string, v: Expr, k: string)
    requires AttrDefn(a, k').None?
    ensures SetAttr(a, k', v) == a + [Binary(Literal(k', NoComments), "=", v, NoComments)]
    ensures AttrDefn(SetAttr(a, k', v), k) ==
              if AttrDefn(a, k).Some? then AttrDefn(a, k)
              else if k == k' then Some(Binary(Literal(k', NoComments), "=", v, NoComments))
              else None
  {
    var b := Binary(Literal(k', NoComments), "=", v, NoComments);
    AttrDefnAppend(a, [b], k);
  }

  /** The merged rule is the existing call (same callee and comments), starts with the
      existing unnamed arguments, and defines each attribute as ExpectedDefn says. */
  lemma MergedRuleAttr(gen: Expr, existing: Expr, k: string)
    requires gen.Call? && existing.Call?
    ensures var r := MergedRule(gen, existing);
      r.Call? && r.fn == existing.fn && r.com == existing.com &&
      Positional(existing.args) <= r.args &&
      AttrDefn(r.args, k) == ExpectedDefn(gen, existing, k)
  {
    var positional := Positional(existing.args);
    var keys := AttrKeys(existing.args);
    var attrs := MergedAttrs(gen.args, existing.args, keys);
    MergedAttrsDefn(gen.args, existing.args, keys, k);
    AttrDefnAppend(positional, attrs, k);
    AddGenAttrsDefn(positional + attrs, gen.args, AttrKeys(gen.args), k);
  }

  /** A keep-marked existing value of a mergeable attribute survives mergeRule, comments
      and all, when the generated rule gives that attribute a string value. */
  lemma KeptValueSurvives(gen: Expr, existing: Expr, k: string)
    requires gen.Call? && existing.Call?
    requires Attr(existing.args, k).Some? && ShouldKeep(Attr(existing.args, k).value)
    requires Attr(gen.args, k).Some? && Attr(gen.args, k).value.Str?
    ensures AttrDefn(MergedRule(gen, existing).args, k) == AttrDefn(existing.args, k)
  {
    MergedRuleAttr(gen, existing, k);
    var d := AttrDefn(existing.args, k).value;
    assert d.(y := d.y) == d;
  }

  /** mergeRule does not protect a keep-marked string of a mergeable attribute when the
      generated value is not a string: the existing string is one of the shapes
      mergeExpr cannot split, so the generated value replaces it, and when the
      generated rule lacks the attribute it is deleted. */
  lemma KeptStringReplaced(gen: Expr, existing: Expr, k: string)
    requires gen.Call? && existing.Call? && k in MergeableFields
    requires Attr(existing.args, k).Some? && Attr(existing.args, k).value.Str?
    requires Attr(gen.args, k).None? || !Attr(gen.args, k).value.Str?
    ensures Attr(MergedRule(gen, existing).args, k) == Attr(gen.args, k)
  {
    MergedRuleAttr(gen, existing, k);
    var d := AttrDefn(existing.args, k).value;
    assert ExprListAndDict(Some(d.y)).Err?;
  }

  /** A concrete instance: `library = "x"  # keep` in the existing rule and no
      `library` in the generated one; the merged rule has no `library`. */
  lemma KeptStringLostExample()
    ensures var keep := Comments([], [Keep], []);
            var lib := Binary(Literal("library", NoComments), "=", Str("x", keep), NoComments);
            var existing := Call(Literal("go_test", NoComments), [lib], NoComments);
            var gen := Call(Literal("go_test", NoComments), [], NoComments);
            ShouldKeep(Attr(existing.args, "library").value) &&
            Attr(MergedRule(gen, existing).args, "library").None?
  {
    var keep := Comments([], [Keep], []);
    var lib := Binary(Literal("library", NoComments), "=", Str("x", keep), NoComments);
    var existing := Call(Literal("go_test", NoComments), [lib], NoComments);
    var gen := Call(Literal("go_test", NoComments), [], NoComments);
    assert AttrDefn(existing.args, "library") == Some(lib);
    KeptStringReplaced(gen, existing, "library");
  }

  /** Merging keeps the rule's kind, and its name unless the existing rule had no
      `name` attribute, in which case the generated name is taken. */
  lemma MergedRuleIdentity(gen: Expr, existing: Expr)
    requires gen.Call? && existing.Call?
    ensures Kind(MergedRule(gen, existing)) == Kind(existing)
    ensures Name(MergedRule(gen, existing)) ==
              if AttrDefn(existing.args, "name").Some? then Name(existing) else Name(gen)
  {
    MergedRuleAttr(gen, existing, "name");
    ExpectedName(gen, existing, MergedRule(gen, existing));
  }

  /** A call defining `name` as ExpectedDefn says has the expected name. */
  lemma ExpectedName(gen: Expr, existing: Expr, r: Expr)
    requires gen.Call? && existing.Call? && r.Call?
    requires AttrDefn(r.args, "name") == ExpectedDefn(gen, existing, "name")
    ensures Name(r) == if AttrDefn(existing.args, "name").Some? then Name(existing) else Name(gen)
  {
    var d := AttrDefn(existing.args, "name");
    if d.Some? {
      assert ExpectedDefn(gen, existing, "name") == MergedAttr(gen.args, d.value, "name") == d;
      NameDefn(r, existing);
    } else {
      NameDefn(r, gen);
    }
  }

  /** Name depends only on the first definition of `name`. */
  lemma NameDefn(a: Expr, b: Expr)
    requires a.Call? && b.Call?
    requires AttrDefn(a.args, "name") == AttrDefn(b.args, "name") ||
             (AttrDefn(b.args, "name").Some? &&
              AttrDefn(a.args, "name") == Some(Binary(Literal("name", NoComments), "=", Attr(b.args, "name").value, NoComments)))
    ensures Name(a) == Name(b)
  {
  }

  // ===========================================================================
  // mergeLoad
  // ===========================================================================

  /** ruleUsed: some call statement of the file has kind `rule` (any call at all
      when `rule` is ""). */
  predicate RuleUsed(rule: string, stmts: seq<Expr>) {
    |Rules(stmts, rule)| != 0
  }

  /** The first loop of mergeLoad: the generated symbols keyed by their string value;
      a later symbol with the same value replaces an earlier one. */
  function GenSymbols(args: seq<Expr>): (vals: map<string, Expr>)
    ensures forall k :: k in vals ==> StringValue(vals[k]) == k
  {
    if args == [] then map[]
    else
      var v := args[|args| - 1];
      GenSymbols(args[..|args| - 1])[StringValue(v) := v]
  }

  /** The second loop of mergeLoad: each existing symbol whose value is not yet
      present and names a rule the file still uses. */
  function AddUsedSymbols(vals: map<string, Expr>, args: seq<Expr>, stmts: seq<Expr>): (r: map<string, Expr>)
    requires forall k :: k in vals ==> StringValue(vals[k]) == k
    ensures forall k :: k in r ==> StringValue(r[k]) == k
  {
    if args == [] then vals
    else
      var m := AddUsedSymbols(vals, args[..|args| - 1], stmts);
      var v := args[|args| - 1];
      var rule := StringValue(v);
      if rule !in m && RuleUsed(rule, stmts) then m[rule := v] else m
  }

  /** The symbols mergeLoad keeps, keyed by string value. */
  function LoadVals(gen: Expr, existing: Expr, stmts: seq<Expr>): (vals: map<string, Expr>)
    requires gen.Call? && existing.Call? && |gen.args| > 0 && |existing.args| > 0
    ensures forall k :: k in vals ==> StringValue(vals[k]) == k
  {
    AddUsedSymbols(GenSymbols(gen.args[1..]), existing.args[1..], stmts)
  }

  /** The arguments for `keys`, in that order. */
  function SymbolArgs(vals: map<string, Expr>, keys: seq<string>): (r: seq<Expr>)
    requires forall k :: k in keys ==> k in vals
    ensures |r| == |keys| && forall i :: 0 <= i < |keys| ==> r[i] == vals[keys[i]]
  {
    if keys == [] then []
    else SymbolArgs(vals, keys[..|keys| - 1]) + [vals[keys[|keys| - 1]]]
  }

  /** mergeLoad as a function: the existing load with its first argument (the file
      loaded) and then the kept symbols sorted by value. */
  ghost function MergedLoad(gen: Expr, existing: Expr, stmts: seq<Expr>): Expr
    requires gen.Call? && existing.Call? && |gen.args| > 0 && |existing.args| > 0
  {
    var vals := LoadVals(gen, existing, stmts);
    existing.(args := existing.args[..1] + SymbolArgs(vals, SortedSet(vals.Keys)))
  }

  /** The first loop of mergeLoad. */
  method CollectGenSymbols(args: seq<Expr>) returns (vals: map<string, Expr>)
    ensures vals == GenSymbols(args)
  {
    vals := map[];
    for i := 0 to |args|
      invariant vals == GenSymbols(args[..i])
    {
      assert args[..i + 1][..i] == args[..i];
      vals := vals[StringValue(args[i]) := args[i]];
    }
    assert args[..|args|] == args;
  }

  /** The second loop of mergeLoad. */
  method KeepUsedSymbols(vals0: map<string, Expr>, args: seq<Expr>, stmts: seq<Expr>) returns (vals: map<string, Expr>)
    requires forall k :: k in vals0 ==> StringValue(vals0[k]) == k
    ensures vals == AddUsedSymbols(vals0, args, stmts)
  {
    vals := vals0;
    for i := 0 to |args|
      invariant vals == AddUsedSymbols(vals0, args[..i], stmts)
    {
      assert args[..i + 1][..i] == args[..i];
      var rule := StringValue(args[i]);
      if rule !in vals && |Rules(stmts, rule)| != 0 {
        vals := vals[rule := args[i]];
      }
    }
    assert args[..|args|] == args;
  }

  /** The keys of a map, listed in whatever order a map iteration yields them and then
      sorted. */
  method SortedKeys(vals: map<string, Expr>) returns (keys: seq<string>)
    ensures keys == SortedSet(vals.Keys)
  {
    keys := [];
    var rest := vals.Keys;
    while rest != {}
      invariant rest <= vals.Keys
      invariant multiset(keys) + multiset(rest) == multiset(vals.Keys)
      decreases |rest|
    {
      var k :| k in rest;
      keys := keys + [k];
      assert multiset(rest) == multiset(rest - {k}) + multiset{k} by {
        assert rest == (rest - {k}) + {k};
      }
      rest := rest - {k};
    }
    SortListing(keys, vals.Keys);
    keys := Sort(keys);
  }

  /** mergeLoad. The symbols are gathered in a map, whose keys are then sorted. */
  method MergeLoad(gen: Expr, existing: Expr, stmts: seq<Expr>) returns (r: Expr)
    requires gen.Call? && existing.Call? && |gen.args| > 0 && |existing.args| > 0
    ensures r == MergedLoad(gen, existing, stmts)
  {
    var genVals := CollectGenSymbols(gen.args[1..]);
    var vals := KeepUsedSymbols(genVals, existing.args[1..], stmts);
    var keys := SortedKeys(vals);
    var symbols := BuildSymbolArgs(vals, keys);
    return existing.(args := existing.args[..1] + symbols);
  }

  /** The last loop of mergeLoad: the kept symbols in key order. */
  method BuildSymbolArgs(vals: map<string, Expr>, keys: seq<string>) returns (r: seq<Expr>)
    requires forall k :: k in keys ==> k in vals
    ensures r == SymbolArgs(vals, keys)
  {
    r := [];
    for i := 0 to |keys|
      invariant r == SymbolArgs(vals, keys[..i])
    {
      assert keys[..i + 1][..i] == keys[..i];
      r := r + [vals[keys[i]]];
    }
    assert keys[..|keys|] == keys;
  }

  /** The string values of a list of arguments. */
  function Names(args: seq<Expr>): (r: seq<string>)
    ensures |r| == |args| && forall i :: 0 <= i < |args| ==> r[i] == StringValue(args[i])
  {
    seq(|args|, i requires 0 <= i < |args| => StringValue(args[i]))
  }

  /** The value of `k` in `m`, if any. */
  function Lookup(m: map<string, Expr>, k: string): Option<Expr> {
    if k in m then Some(m[k]) else None
  }

  /** The last argument whose string value is `s`. */
  function LastWithValue(args: seq<Expr>, s: string): Option<Expr> {
    if args == [] then None
    else if StringValue(args[|args| - 1]) == s then Some(args[|args| - 1])
    else LastWithValue(args[..|args| - 1], s)
  }

  /** The first argument whose string value is `s`. */
  function FirstWithValue(args: seq<Expr>, s: string): Option<Expr> {
    if args == [] then None
    else if StringValue(args[0]) == s then Some(args[0])
    else FirstWithValue(args[1..], s)
  }

  /** The symbol a merged load keeps for the value `s`: the last generated symbol with
      that value; otherwise, when the file still uses a rule of that kind, the first
      existing one. */
  function KeptSymbol(gen: Expr, existing: Expr, stmts: seq<Expr>, s: string): Option<Expr>
    requires gen.Call? && existing.Call? && |gen.args| > 0 && |existing.args| > 0
  {
    var g := LastWithValue(gen.args[1..], s);
    if g.Some? then g
    else if RuleUsed(s, stmts) then FirstWithValue(existing.args[1..], s)
    else None
  }

  lemma {:induction false} GenSymbolsLast(args: seq<Expr>, s: string)
    ensures Lookup(GenSymbols(args), s) == LastWithValue(args, s)
  {
    if args != [] {
      GenSymbolsLast(args[..|args| - 1], s);
    }
  }

  lemma {:induction false} FirstWithValueAppend(args: seq<Expr>, v: Expr, s: string)
    ensures FirstWithValue(args + [v], s) ==
              if FirstWithValue(args, s).Some? then FirstWithValue(args, s)
              else if StringValue(v) == s then Some(v) else None
  {
    if args != [] {
      assert (args + [v])[1..] == args[1..] + [v];
      FirstWithValueAppend(args[1..], v, s);
    }
  }

  lemma {:induction false} AddUsedFirst(vals: map<string, Expr>, args: seq<Expr>, stmts: seq<Expr>, s: string)
    requires forall k :: k in vals ==> StringValue(vals[k]) == k
    ensures Lookup(AddUsedSymbols(vals, args, stmts), s) ==
              if s in vals then Some(vals[s])
              else if RuleUsed(s, stmts) then FirstWithValue(args, s)
              else None
  {
    if args != [] {
      var front := args[..|args| - 1];
      var v := args[|args| - 1];
      assert args == front + [v];
      AddUsedFirst(vals, front, stmts, s);
      FirstWithValueAppend(front, v, s);
    }
  }

  /** The symbols mergeLoad keeps are exactly KeptSymbol's, by value. */
  lemma LoadValsKept(gen: Expr, existing: Expr, stmts: seq<Expr>, s: string)
    requires gen.Call? && existing.Call? && |gen.args| > 0 && |existing.args| > 0
    ensures Lookup(LoadVals(gen, existing, stmts), s) == KeptSymbol(gen, existing, stmts, s)
  {
    GenSymbolsLast(gen.args[1..], s);
    AddUsedFirst(GenSymbols(gen.args[1..]), existing.args[1..], stmts, s);
  }

  /** A merged load keeps the call and the file it loads, lists its symbols in strictly
      ascending order of value, and lists for each value `s` exactly KeptSymbol's
      symbol: the generated one if any, else an existing one still in use. */
  lemma MergedLoadSymbols(gen: Expr, existing: Expr, stmts: seq<Expr>, s: string)
    requires gen.Call? && existing.Call? && |gen.args| > 0 && |existing.args| > 0
    ensures var r := MergedLoad(gen, existing, stmts);
      r.Call? && r.fn == existing.fn && r.com == existing.com &&
      |r.args| >= 1 && r.args[0] == existing.args[0] &&
      StrictlyAscending(Names(r.args[1..])) &&
      (forall i :: 1 <= i < |r.args| ==> KeptSymbol(gen, existing, stmts, StringValue(r.args[i])) == Some(r.args[i])) &&
      (s in Names(r.args[1..]) <==> KeptSymbol(gen, existing, stmts, s).Some?)
  {
    var vals := LoadVals(gen, existing, stmts);
    var keys := SortedSet(vals.Keys);
    var r := MergedLoad(gen, existing, stmts);
    assert r.args[1..] == SymbolArgs(vals, keys);
    assert Names(r.args[1..]) == keys;
    forall i | 1 <= i < |r.args|
      ensures KeptSymbol(gen, existing, stmts, StringValue(r.args[i])) == Some(r.args[i])
    {
      LoadValsKept(gen, existing, stmts, keys[i - 1]);
    }
    LoadValsKept(gen, existing, stmts, s);
  }

  // ===========================================================================
  // match
  // ===========================================================================

  /** Whether the existing call `other` is the one the generated call `c` merges into:
      for a load, a load of the same file; for any other call, a call of the same kind
      and name. A load with no arguments matches nothing. */
  predicate Matches(c: Expr, other: Expr)
    requires c.Call? && other.Call?
  {
    if Kind(c) == "load" then
      |c.args| > 0 && Kind(other) == "load" && |other.args| > 0 && StringValue(c.args[0]) == StringValue(other.args[0])
    else
      Kind(c) == Kind(other) && Name(c) == Name(other)
  }

  /** Statement `s` is a call that `c` matches. */
  predicate MatchedBy(c: Expr, s: Expr)
    requires c.Call?
  {
    s.Call? && Matches(c, s)
  }

  /** match as a function: the index of the first statement `c` matches. */
  function FirstMatch(stmts: seq<Expr>, c: Expr): (r: Option<nat>)
    requires c.Call?
    ensures r.Some? ==> r.value < |stmts| && MatchedBy(c, stmts[r.value])
    ensures r.Some? ==> forall j :: 0 <= j < r.value ==> !MatchedBy(c, stmts[j])
    ensures r.None? ==> forall j :: 0 <= j < |stmts| ==> !MatchedBy(c, stmts[j])
  {
    if stmts == [] then None
    else if MatchedBy(c, stmts[0]) then Some(0)
    else
      assert forall j :: 0 < j < |stmts| ==> stmts[j] == stmts[1..][j - 1];
      match FirstMatch(stmts[1..], c)
      case Some(i) => Some(i + 1)
      case None => None
  }

  /** match: a scan of the statements for the first call `c` matches. */
  method Match(stmts: seq<Expr>, c: Expr) returns (r: Option<nat>)
    requires c.Call?
    ensures r == FirstMatch(stmts, c)
  {
    if Kind(c) == "load" && |c.args| == 0 {
      return None;
    }
    for i := 0 to |stmts|
      invariant forall j :: 0 <= j < i ==> !MatchedBy(c, stmts[j])
    {
      if stmts[i].Call? && Matches(c, stmts[i]) {
        return Some(i);
      }
    }
    return None;
  }

  // ===========================================================================
  // MergeWithExisting
  // ===========================================================================

  /** shouldIgnore: a scan of the comment lines after, then before, each statement. */
  method CheckIgnore(stmts: seq<Expr>) returns (ignore: bool)
    ensures ignore == ShouldIgnore(stmts)
  {
    for i := 0 to |stmts|
      invariant forall j :: 0 <= j < i ==> !IgnoredBy(stmts[j])
    {
      var after := stmts[i].Comment().after;
      for j := 0 to |after|
        invariant forall l :: 0 <= l < j ==> !HasPrefix(after[l], GazelleIgnore)
      {
        if HasPrefix(after[j], GazelleIgnore) {
          return true;
        }
      }
      var before := stmts[i].Comment().before;
      for j := 0 to |before|
        invariant forall l :: 0 <= l < j ==> !HasPrefix(before[l], GazelleIgnore)
      {
        if HasPrefix(before[j], GazelleIgnore) {
          return true;
        }
      }
    }
    return false;
  }

  /** The state of the merge loop: the existing statements, updated in place by each
      merge, and the generated statements that matched nothing. */
  datatype MergeState = MergeState(stmts: seq<Expr>, added: seq<Expr>)

  predicate AllCalls(stmts: seq<Expr>) {
    forall i :: 0 <= i < |stmts| ==> stmts[i].Call?
  }

  /** The statement that replaces the matched statement `existing`. */
  ghost function MergedStmt(g: Expr, existing: Expr, stmts: seq<Expr>): Expr
    requires g.Call? && existing.Call? && Matches(g, existing)
  {
    if Kind(existing) == "load" then MergedLoad(g, existing, stmts) else MergedRule(g, existing)
  }

  /** One iteration of the merge loop for the generated call `g`. */
  ghost function MergeStep(st: MergeState, g: Expr): MergeState
    requires g.Call?
  {
    match FirstMatch(st.stmts, g)
    case None => st.(added := st.added + [g])
    case Some(i) => st.(stmts := st.stmts[i := MergedStmt(g, st.stmts[i], st.stmts)])
  }

  /** The merge loop over the generated statements. */
  ghost function MergeAll(st: MergeState, gens: seq<Expr>): MergeState
    requires AllCalls(gens)
  {
    if gens == [] then st
    else MergeStep(MergeAll(st, gens[..|gens| - 1]), gens[|gens| - 1])
  }

  /** MergeWithExisting as a function of the generated file and the parsed existing
      file (None when it could not be read or parsed): nil when there is no existing
      file or it asks to be ignored; otherwise the existing file with its statements
      merged and the unmatched generated statements appended. */
  ghost function MergedFile(gen: File, existing: Option<File>): Option<File>
    requires AllCalls(gen.stmts)
  {
    if existing.None? || ShouldIgnore(existing.value.stmts) then None
    else
      var st := MergeAll(MergeState(existing.value.stmts, []), gen.stmts);
      Some(existing.value.(stmts := st.stmts + st.added))
  }

  method MergeWithExisting(gen: File, existing: Option<File>) returns (r: Option<File>)
    requires AllCalls(gen.stmts)
    ensures r == MergedFile(gen, existing)
  {
    if existing.None? {
      return None;
    }
    var oldFile := existing.value;
    var ignore := CheckIgnore(oldFile.stmts);
    if ignore {
      return None;
    }
    var stmts := oldFile.stmts;
    var added: seq<Expr> := [];
    for i := 0 to |gen.stmts|
      invariant MergeAll(MergeState(oldFile.stmts, []), gen.stmts[..i]) == MergeState(stmts, added)
    {
      MergeAllStep(MergeState(oldFile.stmts, []), gen.stmts, i);
      stmts, added := MergeGenerated(stmts, added, gen.stmts[i]);
    }
    assert gen.stmts[..|gen.stmts|] == gen.stmts;
    return Some(oldFile.(stmts := stmts + added));
  }

  lemma MergeAllStep(st: MergeState, gens: seq<Expr>, i: nat)
    requires AllCalls(gens) && i < |gens|
    ensures AllCalls(gens[..i]) && AllCalls(gens[..i + 1])
    ensures MergeAll(st, gens[..i + 1]) == MergeStep(MergeAll(st, gens[..i]), gens[i])
  {
    assert gens[..i + 1][..i] == gens[..i];
  }

  /** The body of MergeWithExisting's loop for the generated call `g`: replace the
      statement it matches in place, or queue `g` to be appended. */
  method MergeGenerated(stmts: seq<Expr>, added: seq<Expr>, g: Expr) returns (stmts': seq<Expr>, added': seq<Expr>)
    requires g.Call?
    ensures MergeState(stmts', added') == MergeStep(MergeState(stmts, added), g)
  {
    stmts', added' := stmts, added;
    var j := Match(stmts, g);
    if j.None? {
      added' := added + [g];
      return;
    }
    var matched := stmts[j.value];
    var merged;
    if Kind(matched) == "load" {
      merged := MergeLoad(g, matched, stmts);
    } else {
      merged := MergeRule(g, matched);
    }
    stmts' := stmts[j.value := merged];
  }

  /** `a` and `b` look the same to match: both calls of the same kind, with the same
      loaded file for loads and the same name otherwise, or both not calls. */
  predicate SameKey(a: Expr, b: Expr) {
    a.Call? == b.Call? &&
    (a.Call? ==>
      Kind(a) == Kind(b) &&
      (Kind(a) == "load" ==>
        (|a.args| > 0 <==> |b.args| > 0) &&
        (|a.args| > 0 ==> StringValue(a.args[0]) == StringValue(b.args[0]))) &&
      (Kind(a) != "load" ==> Name(a) == Name(b)))
  }

  /** A merged statement keeps the key it was matched by, so later generated rules
      match it exactly as they would have matched the original. */
  lemma MergedKeepsKey(g: Expr, existing: Expr, stmts: seq<Expr>)
    requires g.Call? && existing.Call? && Matches(g, existing)
    ensures SameKey(existing, MergedStmt(g, existing, stmts))
  {
    if Kind(existing) == "load" {
      MergedLoadSymbols(g, existing, stmts, "");
    } else {
      MergedRuleIdentity(g, existing);
    }
  }

  /** `a` is `b` with some elements left out: its elements occur in `b` in the same order. */
  predicate InOrder(a: seq<Expr>, b: seq<Expr>) {
    a == [] ||
    (b != [] &&
     (InOrder(a, b[..|b| - 1]) ||
      (a[|a| - 1] == b[|b| - 1] && InOrder(a[..|a| - 1], b[..|b| - 1]))))
  }

  lemma InOrderSkip(a: seq<Expr>, b: seq<Expr>, x: Expr)
    requires InOrder(a, b)
    ensures InOrder(a, b + [x]) && InOrder(a + [x], b + [x])
  {
    assert (b + [x])[..|b|] == b;
    assert (a + [x])[..|a|] == a;
  }

  /** The generated calls, in generated order, that match no existing statement: the
      ones MergeWithExisting appends. */
  function Unmatched(s0: seq<Expr>, gens: seq<Expr>): (r: seq<Expr>)
    requires AllCalls(gens)
    ensures |r| <= |gens| && InOrder(r, gens)
    ensures forall x :: x in r <==> x in gens && x.Call? && FirstMatch(s0, x).None?
  {
    if gens == [] then []
    else
      var front := gens[..|gens| - 1];
      var g := gens[|gens| - 1];
      assert gens == front + [g];
      assert AllCalls(front);
      var r := Unmatched(s0, front);
      InOrderSkip(r, front, g);
      if FirstMatch(s0, g).None? then r + [g] else r
  }

  /** No generated call has statement `j` as its first match in `s0`. */
  predicate Unclaimed(s0: seq<Expr>, gens: seq<Expr>, j: nat)
    requires AllCalls(gens)
  {
    forall k :: 0 <= k < |gens| ==> FirstMatch(s0, gens[k]) != Some(j)
  }

  /** `gens[k]` is the only generated call whose first match in `s0` is statement `j`. */
  predicate SoleClaimant(s0: seq<Expr>, gens: seq<Expr>, k: nat, j: nat)
    requires AllCalls(gens) && k < |gens|
    ensures SoleClaimant(s0, gens, k, j) ==> j < |s0| && MatchedBy(gens[k], s0[j])
  {
    FirstMatch(s0, gens[k]) == Some(j) &&
    forall k' :: 0 <= k' < |gens| && k' != k ==> FirstMatch(s0, gens[k']) != Some(j)
  }

  /** `a` and `b` hold calls of the same kinds at the same places. */
  predicate SameKinds(a: seq<Expr>, b: seq<Expr>) {
    |a| == |b| &&
    forall j :: 0 <= j < |a| ==> a[j].Call? == b[j].Call? && (a[j].Call? ==> Kind(a[j]) == Kind(b[j]))
  }

  lemma SameKeysKinds(a: seq<Expr>, b: seq<Expr>)
    requires KeysKept(a, b)
    ensures SameKinds(a, b) && SameKinds(b, a)
  {
  }

  /** Whether a rule is used depends only on the kinds of the calls. */
  lemma RuleUsedSameKinds(a: seq<Expr>, b: seq<Expr>, rule: string)
    requires SameKinds(a, b) && RuleUsed(rule, a)
    ensures RuleUsed(rule, b)
  {
    var x := Rules(a, rule)[0];
    assert x in a;
    var j :| 0 <= j < |a| && a[j] == x;
    assert b[j] in b;
  }

  lemma {:induction false} AddUsedSameKinds(vals: map<string, Expr>, args: seq<Expr>, a: seq<Expr>, b: seq<Expr>)
    requires forall k :: k in vals ==> StringValue(vals[k]) == k
    requires SameKinds(a, b) && SameKinds(b, a)
    ensures AddUsedSymbols(vals, args, a) == AddUsedSymbols(vals, args, b)
  {
    if args != [] {
      AddUsedSameKinds(vals, args[..|args| - 1], a, b);
      var rule := StringValue(args[|args| - 1]);
      if RuleUsed(rule, a) {
        RuleUsedSameKinds(a, b, rule);
      } else if RuleUsed(rule, b) {
        RuleUsedSameKinds(b, a, rule);
      }
    }
  }

  /** The merge of a matched statement is the same against statements that keep the
      keys of `s0`: the load merge only asks which rule kinds are used. */
  lemma MergedStmtSameKeys(g: Expr, e: Expr, s0: seq<Expr>, stmts: seq<Expr>)
    requires g.Call? && e.Call? && Matches(g, e) && KeysKept(s0, stmts)
    ensures MergedStmt(g, e, stmts) == MergedStmt(g, e, s0)
  {
    if Kind(e) == "load" {
      SameKeysKinds(s0, stmts);
      AddUsedSameKinds(GenSymbols(g.args[1..]), e.args[1..], stmts, s0);
    }
  }

  /** A generated call matches a statement exactly when it matches one with the same key. */
  lemma SameKeyMatched(g: Expr, a: Expr, b: Expr)
    requires g.Call? && SameKey(a, b)
    ensures MatchedBy(g, a) <==> MatchedBy(g, b)
  {
  }

  /** Statements that keep the keys of `s0` have the same first matches as `s0`. */
  /** `stmts` has the statements of `s0` in number and keys. */
  predicate KeysKept(s0: seq<Expr>, stmts: seq<Expr>) {
    |stmts| == |s0| && forall j :: 0 <= j < |s0| ==> SameKey(s0[j], stmts[j])
  }

  lemma {:induction false} FirstMatchSameKeys(s0: seq<Expr>, stmts: seq<Expr>, g: Expr)
    requires g.Call? && KeysKept(s0, stmts)
    ensures FirstMatch(stmts, g) == FirstMatch(s0, g)
  {
    if s0 != [] {
      SameKeyMatched(g, s0[0], stmts[0]);
      if !MatchedBy(g, s0[0]) {
        KeysKeptTail(s0, stmts);
        FirstMatchSameKeys(s0[1..], stmts[1..], g);
      }
    }
  }

  lemma KeysKeptTail(s0: seq<Expr>, stmts: seq<Expr>)
    requires KeysKept(s0, stmts) && s0 != []
    ensures KeysKept(s0[1..], stmts[1..])
  {
    assert forall j :: 0 <= j < |s0| - 1 ==> s0[1..][j] == s0[j + 1] && stmts[1..][j] == stmts[j + 1];
  }

  /** Every statement of `s0` that no generated call claims is unchanged in `stmts`. */
  ghost predicate UnclaimedKept(s0: seq<Expr>, gens: seq<Expr>, stmts: seq<Expr>)
    requires AllCalls(gens) && |stmts| == |s0|
  {
    forall j :: 0 <= j < |s0| && Unclaimed(s0, gens, j) ==> stmts[j] == s0[j]
  }

  /** Every statement of `s0` with a sole claimant holds that claimant merged into it. */
  ghost predicate SoleMerged(s0: seq<Expr>, gens: seq<Expr>, stmts: seq<Expr>)
    requires AllCalls(gens) && |stmts| == |s0|
  {
    forall j, k :: 0 <= j < |s0| && 0 <= k < |gens| && SoleClaimant(s0, gens, k, j) ==>
      stmts[j] == MergedStmt(gens[k], s0[j], s0)
  }

  /** What holds of the merge loop after the generated calls `gens`, starting from the
      existing statements `s0`: the statements keep their number and keys; a statement
      that is no generated call's first match is unchanged; a statement that is the
      first match of exactly one generated call holds that call merged into the
      original; and the statements queued are exactly the unmatched generated calls,
      in order. */
  ghost predicate MergeInvariant(s0: seq<Expr>, gens: seq<Expr>, st: MergeState)
    requires AllCalls(gens)
  {
    KeysKept(s0, st.stmts) && UnclaimedKept(s0, gens, st.stmts) && SoleMerged(s0, gens, st.stmts) &&
    st.added == Unmatched(s0, gens)
  }

  lemma {:induction false} MergeAllInvariant(s0: seq<Expr>, gens: seq<Expr>)
    requires AllCalls(gens)
    ensures MergeInvariant(s0, gens, MergeAll(MergeState(s0, []), gens))
  {
    if gens != [] {
      var front := gens[..|gens| - 1];
      var g := gens[|gens| - 1];
      assert front + [g] == gens;
      assert AllCalls(front);
      MergeAllInvariant(s0, front);
      MergeAllSnoc(s0, front, g);
    }
  }

  lemma MergeAllSnoc(s0: seq<Expr>, front: seq<Expr>, g: Expr)
    requires AllCalls(front) && g.Call?
    requires MergeInvariant(s0, front, MergeAll(MergeState(s0, []), front))
    ensures AllCalls(front + [g])
    ensures MergeInvariant(s0, front + [g], MergeAll(MergeState(s0, []), front + [g]))
  {
    assert (front + [g])[..|front|] == front;
    MergeStepInvariant(s0, front, g, MergeAll(MergeState(s0, []), front));
  }

  lemma MergeStepInvariant(s0: seq<Expr>, gens: seq<Expr>, g: Expr, st: MergeState)
    requires AllCalls(gens) && g.Call? && MergeInvariant(s0, gens, st)
    ensures AllCalls(gens + [g]) && MergeInvariant(s0, gens + [g], MergeStep(st, g))
  {
    FirstMatchSameKeys(s0, st.stmts, g);
    match FirstMatch(st.stmts, g)
    case None =>
      AddedInvariant(s0, gens, g, st);
    case Some(i) =>
      var m := MergedStmt(g, st.stmts[i], st.stmts);
      MergedKeepsKey(g, st.stmts[i], st.stmts);
      ReplacedInvariant(s0, gens, g, st, i, m);
  }

  lemma UnmatchedSnoc(s0: seq<Expr>, gens: seq<Expr>, g: Expr)
    requires AllCalls(gens) && g.Call?
    ensures AllCalls(gens + [g])
    ensures Unmatched(s0, gens + [g]) ==
              if FirstMatch(s0, g).None? then Unmatched(s0, gens) + [g] else Unmatched(s0, gens)
  {
    assert (gens + [g])[..|gens|] == gens;
  }

  /** Queuing a call that matches nothing keeps the invariant. */
  lemma AddedInvariant(s0: seq<Expr>, gens: seq<Expr>, g: Expr, st: MergeState)
    requires AllCalls(gens) && g.Call? && MergeInvariant(s0, gens, st) && FirstMatch(s0, g).None?
    ensures AllCalls(gens + [g]) && MergeInvariant(s0, gens + [g], st.(added := st.added + [g]))
  {
    var gens' := gens + [g];
    UnmatchedSnoc(s0, gens, g);
    assert forall k :: 0 <= k < |gens| ==> gens'[k] == gens[k];
    forall j: nat, k: nat | j < |s0| && k < |gens'| && SoleClaimant(s0, gens', k, j)
      ensures SoleClaimant(s0, gens, k, j)
    {
      assert k != |gens|;
    }
  }

  /** Replacing `g`'s first match, statement `i`, by `m`, which keeps its key and is
      `g` merged into it, keeps the invariant. */
  lemma ReplacedInvariant(s0: seq<Expr>, gens: seq<Expr>, g: Expr, st: MergeState, i: nat, m: Expr)
    requires AllCalls(gens) && g.Call? && MergeInvariant(s0, gens, st)
    requires FirstMatch(s0, g) == Some(i) && i < |st.stmts| && MatchedBy(g, st.stmts[i])
    requires SameKey(st.stmts[i], m) && m == MergedStmt(g, st.stmts[i], st.stmts)
    ensures AllCalls(gens + [g]) && MergeInvariant(s0, gens + [g], st.(stmts := st.stmts[i := m]))
  {
    UnmatchedSnoc(s0, gens, g);
    ReplacedKeys(s0, st.stmts, i, m);
    ReplacedUnclaimed(s0, gens, g, st.stmts, i, m);
    ReplacedSole(s0, gens, g, st.stmts, i, m);
  }

  /** Replacing a statement by one with the same key keeps the keys. */
  lemma ReplacedKeys(s0: seq<Expr>, stmts: seq<Expr>, i: nat, m: Expr)
    requires KeysKept(s0, stmts) && i < |stmts| && SameKey(stmts[i], m)
    ensures KeysKept(s0, stmts[i := m])
  {
  }

  /** After the replacement, a statement no generated call claims is still unchanged. */
  lemma ReplacedUnclaimed(s0: seq<Expr>, gens: seq<Expr>, g: Expr, stmts: seq<Expr>, i: nat, m: Expr)
    requires AllCalls(gens) && g.Call? && FirstMatch(s0, g) == Some(i) && |stmts| == |s0|
    requires UnclaimedKept(s0, gens, stmts)
    ensures AllCalls(gens + [g]) && UnclaimedKept(s0, gens + [g], stmts[i := m])
  {
    var gens' := gens + [g];
    assert forall k :: 0 <= k < |gens| ==> gens'[k] == gens[k];
    forall j | 0 <= j < |s0| && Unclaimed(s0, gens', j)
      ensures stmts[i := m][j] == s0[j]
    {
      assert FirstMatch(s0, gens'[|gens|]) != Some(j);
      assert Unclaimed(s0, gens, j);
    }
  }

  /** What ReplacedInvariant knows when it replaces statement `i`, `g`'s first match,
      by `m`, `g` merged into it. */
  ghost predicate ReplaceStep(s0: seq<Expr>, gens: seq<Expr>, g: Expr, stmts: seq<Expr>, i: nat, m: Expr) {
    AllCalls(gens) && g.Call? && FirstMatch(s0, g) == Some(i) && KeysKept(s0, stmts) &&
    MatchedBy(g, stmts[i]) && m == MergedStmt(g, stmts[i], stmts) &&
    UnclaimedKept(s0, gens, stmts) && SoleMerged(s0, gens, stmts)
  }

  /** After the replacement, a statement with a sole claimant holds that claimant merged
      into the original: for the replaced statement the claimant is `g`, and no earlier
      call touched the statement. */
  lemma ReplacedSole(s0: seq<Expr>, gens: seq<Expr>, g: Expr, stmts: seq<Expr>, i: nat, m: Expr)
    requires ReplaceStep(s0, gens, g, stmts, i, m)
    ensures AllCalls(gens + [g]) && SoleMerged(s0, gens + [g], stmts[i := m])
  {
    var gens' := gens + [g];
    assert AllCalls(gens');
    forall j: nat, k: nat | j < |s0| && k < |gens'| && SoleClaimant(s0, gens', k, j)
      ensures stmts[i := m][j] == MergedStmt(gens'[k], s0[j], s0)
    {
      ReplacedSoleOne(s0, gens, g, stmts, i, m, j, k);
    }
  }

  lemma ReplacedSoleOne(s0: seq<Expr>, gens: seq<Expr>, g: Expr, stmts: seq<Expr>, i: nat, m: Expr, j: nat, k: nat)
    requires ReplaceStep(s0, gens, g, stmts, i, m) && AllCalls(gens + [g])
    requires j < |s0| && k < |gens + [g]| && SoleClaimant(s0, gens + [g], k, j)
    ensures stmts[i := m][j] == MergedStmt((gens + [g])[k], s0[j], s0)
  {
    if j == i {
      ReplacedSoleAt(s0, gens, g, stmts, i, k);
    } else {
      SoleClaimantOther(s0, gens, g, i, k, j);
    }
  }

  /** A sole claimant of a statement other than `g`'s first match is an earlier call,
      and already the sole claimant before `g`. */
  lemma SoleClaimantOther(s0: seq<Expr>, gens: seq<Expr>, g: Expr, i: nat, k: nat, j: nat)
    requires AllCalls(gens) && g.Call? && FirstMatch(s0, g) == Some(i) && j != i
    requires AllCalls(gens + [g]) && k < |gens + [g]| && SoleClaimant(s0, gens + [g], k, j)
    ensures k < |gens| && (gens + [g])[k] == gens[k] && SoleClaimant(s0, gens, k, j)
  {
    var gens' := gens + [g];
    assert k != |gens|;
    assert forall k' :: 0 <= k' < |gens| ==> gens'[k'] == gens[k'];
  }

  /** The replaced statement's sole claimant is `g`, so no earlier call touched it and
      `g` is merged into the original. */
  lemma ReplacedSoleAt(s0: seq<Expr>, gens: seq<Expr>, g: Expr, stmts: seq<Expr>, i: nat, k: nat)
    requires AllCalls(gens) && g.Call? && FirstMatch(s0, g) == Some(i) && KeysKept(s0, stmts)
    requires MatchedBy(g, stmts[i]) && UnclaimedKept(s0, gens, stmts)
    requires AllCalls(gens + [g]) && k < |gens + [g]| && SoleClaimant(s0, gens + [g], k, i)
    ensures k == |gens| && stmts[i] == s0[i]
    ensures MergedStmt(g, stmts[i], stmts) == MergedStmt(g, s0[i], s0)
  {
    var gens' := gens + [g];
    assert gens'[|gens|] == g;
    assert k == |gens|;
    assert Unclaimed(s0, gens, i) by {
      forall k' | 0 <= k' < |gens|
        ensures FirstMatch(s0, gens[k']) != Some(i)
      {
        assert gens'[k'] == gens[k'];
      }
    }
    MergedStmtSameKeys(g, s0[i], s0, stmts);
  }

  /** The generated call `g` is in `r`, as itself or merged into a statement it matches. */
  ghost predicate Present(g: Expr, r: seq<Expr>)
    requires g.Call?
  {
    exists j :: PresentAt(g, r, j)
  }

  predicate PresentAt(g: Expr, r: seq<Expr>, j: int)
    requires g.Call?
  {
    0 <= j < |r| && (r[j] == g || MatchedBy(g, r[j]))
  }

  /** What MergeWithExisting promises of the statements it ends with, against the
      existing statements `s0` and the generated calls `gens`: every existing
      statement keeps its place and key; it is unchanged unless it is the first match
      of some generated call; when it is the first match of exactly one generated call
      it is that call merged into it; the statements after the existing ones are
      exactly the generated calls that match nothing, in generated order; and every
      generated call is present, as itself or merged into a statement it matches. */
  ghost predicate FinalStatements(s0: seq<Expr>, gens: seq<Expr>, r: seq<Expr>)
    requires AllCalls(gens)
  {
    |s0| <= |r| <= |s0| + |gens| &&
    (forall j :: 0 <= j < |s0| ==> SameKey(s0[j], r[j])) &&
    (forall j :: 0 <= j < |s0| && Unclaimed(s0, gens, j) ==> r[j] == s0[j]) &&
    (forall j, k :: 0 <= j < |s0| && 0 <= k < |gens| && SoleClaimant(s0, gens, k, j) ==>
       r[j] == MergedStmt(gens[k], s0[j], s0)) &&
    r[|s0|..] == Unmatched(s0, gens) &&
    (forall k :: 0 <= k < |gens| ==> Present(gens[k], r))
  }

  lemma FinalInvariant(s0: seq<Expr>, gens: seq<Expr>, st: MergeState)
    requires AllCalls(gens) && MergeInvariant(s0, gens, st)
    ensures FinalStatements(s0, gens, st.stmts + st.added)
  {
    var r := st.stmts + st.added;
    assert r[|s0|..] == st.added;
    assert forall j :: 0 <= j < |s0| ==> r[j] == st.stmts[j];
    FinalCovers(s0, gens, st.stmts, st.added, r);
  }

  /** Every generated call is present in the final statements: an unmatched one was
      appended, and a matched one matches the statement that replaced its first match. */
  lemma FinalCovers(s0: seq<Expr>, gens: seq<Expr>, stmts: seq<Expr>, added: seq<Expr>, r: seq<Expr>)
    requires AllCalls(gens) && r == stmts + added && added == Unmatched(s0, gens)
    requires |stmts| == |s0| && forall j :: 0 <= j < |s0| ==> SameKey(s0[j], stmts[j])
    ensures forall k :: 0 <= k < |gens| ==> Present(gens[k], r)
  {
    forall k | 0 <= k < |gens|
      ensures Present(gens[k], r)
    {
      match FirstMatch(s0, gens[k])
      case None =>
        assert gens[k] in added;
        var a :| 0 <= a < |added| && added[a] == gens[k];
        assert r[|stmts| + a] == gens[k];
        assert PresentAt(gens[k], r, |stmts| + a);
      case Some(j) =>
        SameKeyMatched(gens[k], s0[j], stmts[j]);
        assert r[j] == stmts[j];
        assert PresentAt(gens[k], r, j);
    }
  }

  /** MergeWithExisting returns nil exactly when there is no existing file or it asks
      to be ignored. Otherwise it returns the existing file, path kept, whose statements
      are as FinalStatements describes: each generated call merged in place into its
      first match, and the calls that match nothing appended in order. */
  lemma MergedFileStatements(gen: File, existing: Option<File>)
    requires AllCalls(gen.stmts)
    ensures MergedFile(gen, existing).None? <==> existing.None? || ShouldIgnore(existing.value.stmts)
    ensures existing.Some? && MergedFile(gen, existing).Some? ==>
      MergedFile(gen, existing).value.path == existing.value.path &&
      FinalStatements(existing.value.stmts, gen.stmts, MergedFile(gen, existing).value.stmts)
  {
    if existing.Some? && !ShouldIgnore(existing.value.stmts) {
      var s0 := existing.value.stmts;
      MergeAllInvariant(s0, gen.stmts);
      FinalInvariant(s0, gen.stmts, MergeAll(MergeState(s0, []), gen.stmts));
    }
  }
}
