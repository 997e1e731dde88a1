/** Evaluation of a selection set against an object (gqleval.c), with the resolver of rgraphql.c over an abstract
    application: what a method call answers, what a value coerces to and what type an object has are functions.
 */
module GqlEval {
  import opened Wrappers

  const MAX_DEPTH: nat := 100

  type Name = string

  /** An application object, such as a Ruby VALUE. */
  type Obj = nat

  datatype Value = Bool(b: bool) | Var(name: Name) | Other

  datatype Binding = Binding(name: Name, value: Option<Value>)

  datatype DirUse = DirUse(dir: Option<Name>, args: seq<Binding>)

  datatype Frag = Frag(name: Option<Name>, on: Option<Name>, dirs: seq<DirUse>, sels: seq<Sel>)

  /** The static type of a selected field, as far as the resolver looks at it. */
  datatype SelType = Single(typ: Name) | ListOf(base: Name, scalar: bool)

  datatype Sel =
    | FieldSel(name: Name, alias: Option<Name>, args: seq<Binding>, typ: SelType, sels: seq<Sel>)
    | Inline(frag: Frag)
    | Spread(to: Name)

  datatype Doc = Doc(frags: seq<Frag>, opVars: seq<Binding>, vars: seq<Binding>, subscription: bool)

  /** A schema field: its type, and which field it is. */
  datatype Field = Field(typ: Name, id: nat)

  datatype World = World(
    typeOf: Obj -> Option<Name>,
    fieldOf: (Name, Name) -> Option<Field>,
    call: (Obj, Option<Field>, Name, seq<Binding>) -> Option<Obj>,
    elements: Obj -> Option<seq<Obj>>,
    text: Obj -> Option<string>,
    coerce: (Obj, Name) -> Option<string>)

  datatype Json = Scalar(s: string) | Object(members: seq<Member>) | List(items: seq<Json>)
  datatype Member = Member(key: Name, value: Json)

  /** The members an evaluation appends to its result, or failure. */
  datatype Outcome = Done(members: seq<Member>) | Failed

  // ----- variables and directives

  /** The binding at `i` has the name, and none before it. */
  ghost predicate IsFirst(bs: seq<Binding>, key: Name, i: nat) {
    i < |bs| && bs[i].name == key && forall k :: 0 <= k < i ==> bs[k].name != key
  }

  ghost predicate Unbound(bs: seq<Binding>, key: Name) {
    forall k :: 0 <= k < |bs| ==> bs[k].name != key
  }

  function Lookup(bs: seq<Binding>, key: Name): (r: Option<Binding>)
    ensures r.None? <==> forall b :: b in bs ==> b.name != key
    ensures r.Some? ==> r.value in bs && r.value.name == key
  {
    if bs == [] then None
    else if bs[0].name == key then Some(bs[0])
    else Lookup(bs[1..], key)
  }

  lemma {:induction false} LookupFirst(bs: seq<Binding>, key: Name, i: nat)
    requires IsFirst(bs, key, i)
    ensures Lookup(bs, key) == Some(bs[i])
    decreases i
  {
    if i > 0 {
      assert forall k :: 0 < k < |bs| ==> bs[k] == bs[1..][k - 1];
      LookupFirst(bs[1..], key, i - 1);
    }
  }

  function VarValue(doc: Doc, key: Name): Option<Value> {
    match Lookup(doc.opVars, key)
    case Some(b) => b.value
    case None =>
      match Lookup(doc.vars, key)
      case Some(b) => b.value
      case None => None
  }

  /** doc_var_value: the first variable of the name in the operation, else the first in the document, else none. */
  lemma VarValueIs(doc: Doc, key: Name, i: nat)
    ensures IsFirst(doc.opVars, key, i) ==> VarValue(doc, key) == doc.opVars[i].value
    ensures Unbound(doc.opVars, key) && IsFirst(doc.vars, key, i) ==> VarValue(doc, key) == doc.vars[i].value
    ensures Unbound(doc.opVars, key) && Unbound(doc.vars, key) ==> VarValue(doc, key) == None
  {
    if IsFirst(doc.opVars, key, i) {
      LookupFirst(doc.opVars, key, i);
    } else if IsFirst(doc.vars, key, i) {
      LookupFirst(doc.vars, key, i);
    }
  }

  /** An argument "if" says `want`, literally or through a variable. */
  predicate Says(doc: Doc, arg: Binding, want: bool) {
    && arg.name == "if"
    && match arg.value
       case Some(Bool(b)) => b == want
       case Some(Var(key)) => VarValue(doc, key) == Some(Bool(want))
       case _ => false
  }

  predicate Vetoes(doc: Doc, dir: DirUse) {
    || (dir.dir == Some("skip") && exists arg :: arg in dir.args && Says(doc, arg, true))
    || (dir.dir == Some("include") && exists arg :: arg in dir.args && Says(doc, arg, false))
  }

  /** A fragment applies to an object when the types agree and no directive vetoes it. */
  predicate Included(w: World, doc: Doc, frag: Frag, ref: Obj) {
    && (frag.on.Some? ==> w.typeOf(ref) == frag.on)
    && forall dir :: dir in frag.dirs ==> !Vetoes(doc, dir)
  }

  method FragInclude(w: World, doc: Doc, frag: Frag, ref: Obj) returns (b: bool)
    ensures b == Included(w, doc, frag, ref)
  {
    if frag.on.Some? && frag.on != w.typeOf(ref) {
      return false;
    }
    for i := 0 to |frag.dirs|
      invariant forall k :: 0 <= k < i ==> !Vetoes(doc, frag.dirs[k])
    {
      var dir := frag.dirs[i];
      for j := 0 to |dir.args|
        invariant dir.dir == Some("skip") ==> forall k :: 0 <= k < j ==> !Says(doc, dir.args[k], true)
      {
        if dir.dir == Some("skip") && Says(doc, dir.args[j], true) {
          assert Vetoes(doc, dir);
          return false;
        }
      }
      for j := 0 to |dir.args|
        invariant dir.dir == Some("include") ==> forall k :: 0 <= k < j ==> !Says(doc, dir.args[k], false)
      {
        if dir.dir == Some("include") && Says(doc, dir.args[j], false) {
          assert Vetoes(doc, dir);
          return false;
        }
      }
    }
    return true;
  }

  // ----- the evaluator

  /** What is left of the depth cap: the measure on which evaluation terminates. */
  function Left(depth: nat): nat {
    if depth <= MAX_DEPTH + 2 then MAX_DEPTH + 3 - depth else 0
  }

  function SubField(w: World, field: Option<Field>, sel: Sel): Option<Field> {
    if field.None? then None
    else if sel.FieldSel? then w.fieldOf(field.value.typ, sel.name)
    else field
  }

  function Then(first: Outcome, rest: Outcome): Outcome {
    if first.Failed? || rest.Failed? then Failed else Done(first.members + rest.members)
  }

  /** gql_eval_sels, as the members it appends. */
  function EvalSels(w: World, doc: Doc, ref: Obj, field: Option<Field>, sels: seq<Sel>, depth: nat): Outcome
    decreases Left(depth), 0, 0
  {
    if MAX_DEPTH < depth then Failed
    else EvalEach(w, doc, ref, field, sels, depth + 1)
  }

  function EvalEach(w: World, doc: Doc, ref: Obj, field: Option<Field>, sels: seq<Sel>, depth: nat): Outcome
    requires depth <= MAX_DEPTH + 1
    decreases Left(depth), 3, |sels|
  {
    if sels == [] then Done([])
    else Then(EvalSel(w, doc, ref, field, sels[0], depth), EvalEach(w, doc, ref, field, sels[1..], depth))
  }

  function EvalSel(w: World, doc: Doc, ref: Obj, field: Option<Field>, sel: Sel, depth: nat): Outcome
    requires depth <= MAX_DEPTH + 1
    decreases Left(depth), 2, 0
  {
    var sf := SubField(w, field, sel);
    match sel
    case Inline(frag) => if Included(w, doc, frag, ref) then EvalSels(w, doc, ref, sf, frag.sels, depth) else Done([])
    case Spread(to) => EvalSpread(w, doc, ref, sf, to, doc.frags, depth)
    case FieldSel(_, _, _, _, _) => Resolve(w, doc, ref, sf, sel, depth)
  }

  /** Every fragment of the name is evaluated, in document order. */
  function EvalSpread(w: World, doc: Doc, ref: Obj, field: Option<Field>, to: Name, frags: seq<Frag>,
          depth: nat): Outcome
    requires depth <= MAX_DEPTH + 1
    decreases Left(depth), 1, |frags|
  {
    if frags == [] then Done([])
    else
      var frag := frags[0];
      var rest := EvalSpread(w, doc, ref, field, to, frags[1..], depth);
      if frag.name == Some(to) && Included(w, doc, frag, ref)
      then Then(EvalSels(w, doc, ref, field, frag.sels, depth), rest)
      else rest
  }

  /** The resolver.  At depth 0 an object's members go straight into the result.  Introspection fields other than
      __typename are not modelled and fail. */
  function Resolve(w: World, doc: Doc, ref: Obj, field: Option<Field>, sel: Sel, depth: nat): Outcome
    requires depth <= MAX_DEPTH + 1 && sel.FieldSel?
    decreases Left(depth), 1, 0
  {
    if sel.name == "__typename" then
      match w.typeOf(ref)
      case Some(name) => Done([Member(sel.name, Scalar(name))])
      case None => Failed
    else if "__" <= sel.name then Failed
    else
      match w.call(ref, field, sel.name, sel.args)
      case None => Failed
      case Some(child) => ResolveChild(w, doc, child, field, sel, depth)
  }

  function ResolveChild(w: World, doc: Doc, child: Obj, field: Option<Field>, sel: Sel, depth: nat): Outcome
    requires depth <= MAX_DEPTH + 1 && sel.FieldSel?
    decreases Left(depth), 0, 1
  {
    var key := if sel.alias.Some? then sel.alias.value else sel.name;
    if doc.subscription && w.text(child).Some? then Done([Member("subject", Scalar(w.text(child).value))])
    else if sel.typ.ListOf? then
      match w.elements(child)
      case None => Failed
      case Some(objs) =>
        match ResolveItems(w, doc, objs, sel, depth)
        case None => Failed
        case Some(items) => Done([Member(key, List(items))])
    else if sel.sels == [] then
      match w.coerce(child, sel.typ.typ)
      case None => Failed
      case Some(s) => Done([Member(key, Scalar(s))])
    else
      match EvalSels(w, doc, child, field, sel.sels, depth + 1)
      case Failed => Failed
      case Done(members) => Done(if depth == 0 then members else [Member(key, Object(members))])
  }

  function ResolveItems(w: World, doc: Doc, objs: seq<Obj>, sel: Sel, depth: nat): Option<seq<Json>>
    requires depth <= MAX_DEPTH + 1 && sel.FieldSel? && sel.typ.ListOf?
    decreases Left(depth), 0, 0, |objs|
  {
    if objs == [] then Some([])
    else
      match ResolveItem(w, doc, objs[0], sel, depth)
      case None => None
      case Some(item) =>
        match ResolveItems(w, doc, objs[1..], sel, depth)
        case None => None
        case Some(items) => Some([item] + items)
  }

  function ResolveItem(w: World, doc: Doc, obj: Obj, sel: Sel, depth: nat): Option<Json>
    requires depth <= MAX_DEPTH + 1 && sel.FieldSel? && sel.typ.ListOf?
    decreases Left(depth), 0, 0, 0
  {
    if sel.typ.scalar then
      match w.coerce(obj, sel.typ.base)
      case None => None
      case Some(s) => Some(Scalar(s))
    else
      match EvalSels(w, doc, obj, Some(Field(sel.typ.base, 0)), sel.sels, depth + 1)
      case Failed => None
      case Done(members) => Some(Object(members))
  }

  predicate IsOperation(op: Name) { op == "query" || op == "mutation" || op == "subscription" }

  /** gql_doc_eval: the field of the root type that is named for the operation is resolved at depth 0. */
  function DocEval(w: World, doc: Doc, root: Obj, rootType: Name, op: Name, sels: seq<Sel>): Outcome
    requires IsOperation(op)
  {
    match w.fieldOf(rootType, op)
    case None => Failed
    case Some(field) => Resolve(w, doc, root, Some(field), FieldSel(op, None, [], Single(rootType), sels), 0)
  }

  // ----- the depth only matters by running out

  /** What succeeds at one depth succeeds with the same members at every smaller depth. */
  lemma {:induction false} Shallower(w: World, doc: Doc, ref: Obj, field: Option<Field>, sels: seq<Sel>, depth: nat,
          less: nat)
    requires less <= depth && EvalSels(w, doc, ref, field, sels, depth).Done?
    ensures EvalSels(w, doc, ref, field, sels, less) == EvalSels(w, doc, ref, field, sels, depth)
    decreases Left(depth), 0, 0
  {
    ShallowerEach(w, doc, ref, field, sels, depth + 1, less + 1);
  }

  lemma {:induction false} ShallowerEach(w: World, doc: Doc, ref: Obj, field: Option<Field>, sels: seq<Sel>,
          depth: nat, less: nat)
    requires 1 <= less <= depth <= MAX_DEPTH + 1 && EvalEach(w, doc, ref, field, sels, depth).Done?
    ensures EvalEach(w, doc, ref, field, sels, less) == EvalEach(w, doc, ref, field, sels, depth)
    decreases Left(depth), 3, |sels|
  {
    if sels != [] {
      ShallowerSel(w, doc, ref, field, sels[0], depth, less);
      ShallowerEach(w, doc, ref, field, sels[1..], depth, less);
    }
  }

  lemma {:induction false} ShallowerSel(w: World, doc: Doc, ref: Obj, field: Option<Field>, sel: Sel, depth: nat,
          less: nat)
    requires 1 <= less <= depth <= MAX_DEPTH + 1 && EvalSel(w, doc, ref, field, sel, depth).Done?
    ensures EvalSel(w, doc, ref, field, sel, less) == EvalSel(w, doc, ref, field, sel, depth)
    decreases Left(depth), 2, 0
  {
    var sf := SubField(w, field, sel);
    match sel {
      case Inline(frag) => if Included(w, doc, frag, ref) { Shallower(w, doc, ref, sf, frag.sels, depth, less); }
      case Spread(to) => ShallowerSpread(w, doc, ref, sf, to, doc.frags, depth, less);
      case FieldSel(_, _, _, _, _) => ShallowerResolve(w, doc, ref, sf, sel, depth, less);
    }
  }

  lemma {:induction false} ShallowerSpread(w: World, doc: Doc, ref: Obj, field: Option<Field>, to: Name,
          frags: seq<Frag>, depth: nat, less: nat)
    requires 1 <= less <= depth <= MAX_DEPTH + 1 && EvalSpread(w, doc, ref, field, to, frags, depth).Done?
    ensures EvalSpread(w, doc, ref, field, to, frags, less) == EvalSpread(w, doc, ref, field, to, frags, depth)
    decreases Left(depth), 1, |frags|
  {
    if frags != [] {
      ShallowerSpread(w, doc, ref, field, to, frags[1..], depth, less);
      if frags[0].name == Some(to) && Included(w, doc, frags[0], ref) {
        Shallower(w, doc, ref, field, frags[0].sels, depth, less);
      }
    }
  }

  lemma {:induction false} ShallowerResolve(w: World, doc: Doc, ref: Obj, field: Option<Field>, sel: Sel, depth: nat,
          less: nat)
    requires 1 <= less <= depth <= MAX_DEPTH + 1 && sel.FieldSel? && Resolve(w, doc, ref, field, sel, depth).Done?
    ensures Resolve(w, doc, ref, field, sel, less) == Resolve(w, doc, ref, field, sel, depth)
    decreases Left(depth), 1, 0
  {
    if sel.name != "__typename" && !("__" <= sel.name) {
      var child := w.call(ref, field, sel.name, sel.args).value;
      if !(doc.subscription && w.text(child).Some?) {
        if sel.typ.ListOf? {
          ShallowerItems(w, doc, w.elements(child).value, sel, depth, less);
        } else if sel.sels != [] {
          Shallower(w, doc, child, field, sel.sels, depth + 1, less + 1);
        }
      }
    }
  }

  lemma {:induction false} ShallowerItems(w: World, doc: Doc, objs: seq<Obj>, sel: Sel, depth: nat, less: nat)
    requires 1 <= less <= depth <= MAX_DEPTH + 1 && sel.FieldSel? && sel.typ.ListOf?
    requires ResolveItems(w, doc, objs, sel, depth).Some?
    ensures ResolveItems(w, doc, objs, sel, less) == ResolveItems(w, doc, objs, sel, depth)
    decreases Left(depth), 0, 0, |objs|
  {
    if objs != [] {
      ShallowerItems(w, doc, objs[1..], sel, depth, less);
      if !sel.typ.scalar {
        Shallower(w, doc, objs[0], Some(Field(sel.typ.base, 0)), sel.sels, depth + 1, less + 1);
      }
    }
  }

  // ----- inlining fragments

  /** The selection with every fragment that applies to the object replaced, in place, by its selections, and the
      others dropped; none when the replacing goes on past the cap. */
  function Flatten(w: World, doc: Doc, ref: Obj, sels: seq<Sel>, depth: nat): Option<seq<Sel>>
    decreases Left(depth), 0, 0
  {
    if MAX_DEPTH < depth then None else FlattenEach(w, doc, ref, sels, depth + 1)
  }

  function FlattenEach(w: World, doc: Doc, ref: Obj, sels: seq<Sel>, depth: nat): Option<seq<Sel>>
    requires depth <= MAX_DEPTH + 1
    decreases Left(depth), 3, |sels|
  {
    if sels == [] then Some([])
    else Join(FlattenSel(w, doc, ref, sels[0], depth), FlattenEach(w, doc, ref, sels[1..], depth))
  }

  function Join(a: Option<seq<Sel>>, b: Option<seq<Sel>>): Option<seq<Sel>> {
    if a.None? || b.None? then None else Some(a.value + b.value)
  }

  function FlattenSel(w: World, doc: Doc, ref: Obj, sel: Sel, depth: nat): Option<seq<Sel>>
    requires depth <= MAX_DEPTH + 1
    decreases Left(depth), 2, 0
  {
    match sel
    case Inline(frag) => if Included(w, doc, frag, ref) then Flatten(w, doc, ref, frag.sels, depth) else Some([])
    case Spread(to) => FlattenSpread(w, doc, ref, to, doc.frags, depth)
    case FieldSel(_, _, _, _, _) => Some([sel])
  }

  function FlattenSpread(w: World, doc: Doc, ref: Obj, to: Name, frags: seq<Frag>, depth: nat): Option<seq<Sel>>
    requires depth <= MAX_DEPTH + 1
    decreases Left(depth), 1, |frags|
  {
    if frags == [] then Some([])
    else
      var rest := FlattenSpread(w, doc, ref, to, frags[1..], depth);
      if frags[0].name == Some(to) && Included(w, doc, frags[0], ref)
      then Join(Flatten(w, doc, ref, frags[0].sels, depth), rest)
      else rest
  }

  /** Only fields are left. */
  lemma {:induction false} FlattenFields(w: World, doc: Doc, ref: Obj, sels: seq<Sel>, depth: nat)
    requires Flatten(w, doc, ref, sels, depth).Some?
    ensures forall sel :: sel in Flatten(w, doc, ref, sels, depth).value ==> sel.FieldSel?
    decreases Left(depth), 0, 0
  {
    FlattenEachFields(w, doc, ref, sels, depth + 1);
  }

  lemma {:induction false} FlattenEachFields(w: World, doc: Doc, ref: Obj, sels: seq<Sel>, depth: nat)
    requires depth <= MAX_DEPTH + 1 && FlattenEach(w, doc, ref, sels, depth).Some?
    ensures forall sel :: sel in FlattenEach(w, doc, ref, sels, depth).value ==> sel.FieldSel?
    decreases Left(depth), 3, |sels|
  {
    if sels != [] {
      FlattenEachFields(w, doc, ref, sels[1..], depth);
      match sels[0] {
        case Inline(frag) => if Included(w, doc, frag, ref) { FlattenFields(w, doc, ref, frag.sels, depth); }
        case Spread(to) => FlattenSpreadFields(w, doc, ref, to, doc.frags, depth);
        case FieldSel(_, _, _, _, _) =>
      }
    }
  }

  lemma {:induction false} FlattenSpreadFields(w: World, doc: Doc, ref: Obj, to: Name, frags: seq<Frag>, depth: nat)
    requires depth <= MAX_DEPTH + 1 && FlattenSpread(w, doc, ref, to, frags, depth).Some?
    ensures forall sel :: sel in FlattenSpread(w, doc, ref, to, frags, depth).value ==> sel.FieldSel?
    decreases Left(depth), 1, |frags|
  {
    if frags != [] {
      FlattenSpreadFields(w, doc, ref, to, frags[1..], depth);
      if frags[0].name == Some(to) && Included(w, doc, frags[0], ref) {
        FlattenFields(w, doc, ref, frags[0].sels, depth);
      }
    }
  }

  /** Evaluating one selection after another is evaluating both. */
  lemma {:induction false} EvalEachConcat(w: World, doc: Doc, ref: Obj, field: Option<Field>, a: seq<Sel>,
          b: seq<Sel>, depth: nat)
    requires depth <= MAX_DEPTH + 1
    ensures EvalEach(w, doc, ref, field, a + b, depth)
         == Then(EvalEach(w, doc, ref, field, a, depth), EvalEach(w, doc, ref, field, b, depth))
    decreases |a|
  {
    if a == [] {
      assert a + b == b;
    } else {
      assert (a + b)[1..] == a[1..] + b;
      EvalEachConcat(w, doc, ref, field, a[1..], b, depth);
    }
  }

  /** Inlining preserves meaning: an evaluation that succeeds at some depth has an inlined selection, and evaluating
      that succeeds at this and every smaller depth, with the same members in the same order. */
  lemma {:induction false} Inlining(w: World, doc: Doc, ref: Obj, field: Option<Field>, sels: seq<Sel>, depth: nat,
          less: nat)
    requires less <= depth && EvalSels(w, doc, ref, field, sels, depth).Done?
    ensures Flatten(w, doc, ref, sels, depth).Some?
    ensures EvalSels(w, doc, ref, field, Flatten(w, doc, ref, sels, depth).value, less)
         == EvalSels(w, doc, ref, field, sels, depth)
    decreases Left(depth), 0, 0
  {
    InliningEach(w, doc, ref, field, sels, depth + 1, less + 1);
  }

  lemma {:induction false} InliningEach(w: World, doc: Doc, ref: Obj, field: Option<Field>, sels: seq<Sel>,
          depth: nat, less: nat)
    requires 1 <= less <= depth <= MAX_DEPTH + 1 && EvalEach(w, doc, ref, field, sels, depth).Done?
    ensures FlattenEach(w, doc, ref, sels, depth).Some?
    ensures EvalEach(w, doc, ref, field, FlattenEach(w, doc, ref, sels, depth).value, less)
         == EvalEach(w, doc, ref, field, sels, depth)
    decreases Left(depth), 3, |sels|
  {
    if sels != [] {
      InliningSel(w, doc, ref, field, sels[0], depth, less);
      InliningEach(w, doc, ref, field, sels[1..], depth, less);
      EvalEachConcat(w, doc, ref, field, FlattenSel(w, doc, ref, sels[0], depth).value,
                     FlattenEach(w, doc, ref, sels[1..], depth).value, less);
    }
  }

  lemma {:induction false} InliningSel(w: World, doc: Doc, ref: Obj, field: Option<Field>, sel: Sel, depth: nat,
          less: nat)
    requires 1 <= less <= depth <= MAX_DEPTH + 1 && EvalSel(w, doc, ref, field, sel, depth).Done?
    ensures FlattenSel(w, doc, ref, sel, depth).Some?
    ensures EvalEach(w, doc, ref, field, FlattenSel(w, doc, ref, sel, depth).value, less)
         == EvalSel(w, doc, ref, field, sel, depth)
    decreases Left(depth), 2, 0
  {
    match sel {
      case Inline(frag) =>
        if Included(w, doc, frag, ref) {
          Inlining(w, doc, ref, field, frag.sels, depth, less - 1);
        }
      case Spread(to) => InliningSpread(w, doc, ref, field, to, doc.frags, depth, less);
      case FieldSel(_, _, _, _, _) =>
        ShallowerResolve(w, doc, ref, SubField(w, field, sel), sel, depth, less);
        assert EvalEach(w, doc, ref, field, [sel][1..], less) == Done([]);
    }
  }

  lemma {:induction false} InliningSpread(w: World, doc: Doc, ref: Obj, field: Option<Field>, to: Name,
          frags: seq<Frag>, depth: nat, less: nat)
    requires 1 <= less <= depth <= MAX_DEPTH + 1 && EvalSpread(w, doc, ref, field, to, frags, depth).Done?
    ensures FlattenSpread(w, doc, ref, to, frags, depth).Some?
    ensures EvalEach(w, doc, ref, field, FlattenSpread(w, doc, ref, to, frags, depth).value, less)
         == EvalSpread(w, doc, ref, field, to, frags, depth)
    decreases Left(depth), 1, |frags|
  {
    if frags != [] {
      InliningSpread(w, doc, ref, field, to, frags[1..], depth, less);
      if frags[0].name == Some(to) && Included(w, doc, frags[0], ref) {
        Inlining(w, doc, ref, field, frags[0].sels, depth, less - 1);
        EvalEachConcat(w, doc, ref, field, Flatten(w, doc, ref, frags[0].sels, depth).value,
                       FlattenSpread(w, doc, ref, to, frags[1..], depth).value, less);
      }
    }
  }

  /** The object an operation selects from. */
  function Target(w: World, root: Obj, rootType: Name, op: Name): Option<Obj> {
    w.call(root, w.fieldOf(rootType, op), op, [])
  }

  /** A whole operation that succeeds and selects something has an inlined form, and gives the same result in it, if
      and only if that form still selects something: with nothing selected the code coerces the object instead. The
      event of a subscription is given as it is. */
  lemma DocInlining(w: World, doc: Doc, root: Obj, rootType: Name, op: Name, sels: seq<Sel>)
    requires IsOperation(op) && sels != [] && DocEval(w, doc, root, rootType, op, sels).Done?
    ensures Target(w, root, rootType, op).Some?
    ensures var obj := Target(w, root, rootType, op).value;
            if doc.subscription && w.text(obj).Some? then
              forall more :: DocEval(w, doc, root, rootType, op, more) == DocEval(w, doc, root, rootType, op, sels)
            else
              var flat := Flatten(w, doc, obj, sels, 1);
              && flat.Some?
              && (DocEval(w, doc, root, rootType, op, flat.value) == DocEval(w, doc, root, rootType, op, sels)
                  <==> flat.value != [])
  {
    var field := w.fieldOf(rootType, op);
    var obj := Target(w, root, rootType, op).value;
    if !(doc.subscription && w.text(obj).Some?) {
      Inlining(w, doc, obj, field, sels, 1, 1);
      assert EvalEach(w, doc, obj, field, [], 2) == Done([]);
    }
  }

  // ----- fragments that reach themselves

  /** `inner` is the selection of a fragment that `sels` includes for the object. */
  ghost predicate Opens(w: World, doc: Doc, ref: Obj, sels: seq<Sel>, inner: seq<Sel>) {
    || (exists frag :: Inline(frag) in sels && Included(w, doc, frag, ref) && inner == frag.sels)
    || (exists frag :: frag in doc.frags && frag.name.Some? && Spread(frag.name.value) in sels
                       && Included(w, doc, frag, ref) && inner == frag.sels)
  }

  /** Each selection of the path includes the next. */
  ghost predicate OpensPath(w: World, doc: Doc, ref: Obj, path: seq<seq<Sel>>) {
    forall i :: 0 <= i < |path| - 1 ==> Opens(w, doc, ref, path[i], path[i + 1])
  }

  /** A success goes down one depth into everything that is included. */
  lemma OpensDeeper(w: World, doc: Doc, ref: Obj, field: Option<Field>, sels: seq<Sel>, inner: seq<Sel>, depth: nat)
    requires EvalSels(w, doc, ref, field, sels, depth).Done? && Opens(w, doc, ref, sels, inner)
    ensures EvalSels(w, doc, ref, field, inner, depth + 1).Done?
  {
    if frag :| Inline(frag) in sels && Included(w, doc, frag, ref) && inner == frag.sels {
      DoneEach(w, doc, ref, field, sels, Inline(frag), depth + 1);
    } else {
      var frag :| frag in doc.frags && frag.name.Some? && Spread(frag.name.value) in sels
                  && Included(w, doc, frag, ref) && inner == frag.sels;
      DoneEach(w, doc, ref, field, sels, Spread(frag.name.value), depth + 1);
      DoneSpread(w, doc, ref, field, frag.name.value, doc.frags, frag, depth + 1);
    }
  }

  lemma {:induction false} DoneEach(w: World, doc: Doc, ref: Obj, field: Option<Field>, sels: seq<Sel>, sel: Sel,
          depth: nat)
    requires depth <= MAX_DEPTH + 1 && EvalEach(w, doc, ref, field, sels, depth).Done? && sel in sels
    ensures EvalSel(w, doc, ref, field, sel, depth).Done?
    decreases |sels|
  {
    if sels[0] != sel {
      DoneEach(w, doc, ref, field, sels[1..], sel, depth);
    }
  }

  lemma {:induction false} DoneSpread(w: World, doc: Doc, ref: Obj, field: Option<Field>, to: Name, frags: seq<Frag>,
          frag: Frag, depth: nat)
    requires depth <= MAX_DEPTH + 1 && EvalSpread(w, doc, ref, field, to, frags, depth).Done?
    requires frag in frags && frag.name == Some(to) && Included(w, doc, frag, ref)
    ensures EvalSels(w, doc, ref, field, frag.sels, depth).Done?
    decreases |frags|
  {
    if frags[0] != frag {
      DoneSpread(w, doc, ref, field, to, frags[1..], frag, depth);
    }
  }

  lemma {:induction false} PathDeeper(w: World, doc: Doc, ref: Obj, field: Option<Field>, path: seq<seq<Sel>>,
          depth: nat)
    requires path != [] && OpensPath(w, doc, ref, path) && EvalSels(w, doc, ref, field, path[0], depth).Done?
    ensures EvalSels(w, doc, ref, field, path[|path| - 1], depth + |path| - 1).Done?
    decreases |path|
  {
    if |path| > 1 {
      assert Opens(w, doc, ref, path[0], path[0 + 1]);
      OpensDeeper(w, doc, ref, field, path[0], path[1], depth);
      forall i | 0 <= i < |path[1..]| - 1
        ensures Opens(w, doc, ref, path[1..][i], path[1..][i + 1])
      {
        var k := i + 1;
        assert Opens(w, doc, ref, path[k], path[k + 1]);
      }
      PathDeeper(w, doc, ref, field, path[1..], depth + 1);
    }
  }

  /** A selection that reaches itself through fragments alone never evaluates to success. */
  lemma {:induction false} SelfReaching(w: World, doc: Doc, ref: Obj, field: Option<Field>, path: seq<seq<Sel>>,
          depth: nat)
    requires |path| > 1 && OpensPath(w, doc, ref, path) && path[0] == path[|path| - 1]
    ensures EvalSels(w, doc, ref, field, path[0], depth).Failed?
    decreases Left(depth)
  {
    if EvalSels(w, doc, ref, field, path[0], depth).Done? {
      PathDeeper(w, doc, ref, field, path, depth);
      SelfReaching(w, doc, ref, field, path, depth + |path| - 1);
    }
  }

  // ----- the loops of gql_eval_sels

  /** gql_eval_sels: a loop over the selections that appends to the result and stops at the first failure. */
  method EvalLoop(w: World, doc: Doc, ref: Obj, field: Option<Field>, sels: seq<Sel>, result: seq<Member>, depth: nat)
    returns (ok: bool, result': seq<Member>)
    ensures ok == EvalSels(w, doc, ref, field, sels, depth).Done?
    ensures ok ==> result' == result + EvalSels(w, doc, ref, field, sels, depth).members
    decreases Left(depth), 0
  {
    result' := result;
    if MAX_DEPTH < depth {
      return false, result';
    }
    var d := depth + 1;
    ghost var members := [];
    for i := 0 to |sels|
      invariant result' == result + members
      invariant EvalEach(w, doc, ref, field, sels, d) == Then(Done(members), EvalEach(w, doc, ref, field, sels[i..], d))
    {
      ghost var was := members;
      EvalNext(w, doc, ref, field, sels, i, d, was);
      ok, result' := EvalOne(w, doc, ref, field, sels[i], result', d);
      if !ok {
        return false, result';
      }
      members := was + EvalSel(w, doc, ref, field, sels[i], d).members;
    }
    ok := true;
  }

  /** One turn of the loop. */
  lemma EvalNext(w: World, doc: Doc, ref: Obj, field: Option<Field>, sels: seq<Sel>, i: nat, depth: nat,
          was: seq<Member>)
    requires depth <= MAX_DEPTH + 1 && i < |sels|
    ensures Then(Done(was), EvalEach(w, doc, ref, field, sels[i..], depth))
         == Then(Then(Done(was), EvalSel(w, doc, ref, field, sels[i], depth)),
                 EvalEach(w, doc, ref, field, sels[i + 1..], depth))
  {
    assert sels[i..][0] == sels[i] && sels[i..][1..] == sels[i + 1..];
    var one, rest := EvalSel(w, doc, ref, field, sels[i], depth), EvalEach(w, doc, ref, field, sels[i + 1..], depth);
    if one.Done? && rest.Done? {
      assert was + (one.members + rest.members) == was + one.members + rest.members;
    }
  }

  /** One turn of the loop over the fragments. */
  lemma SpreadNext(w: World, doc: Doc, ref: Obj, field: Option<Field>, to: Name, j: nat, depth: nat, was: seq<Member>)
    requires depth <= MAX_DEPTH + 1 && j < |doc.frags|
    ensures var frag := doc.frags[j];
            Then(Done(was), EvalSpread(w, doc, ref, field, to, doc.frags[j..], depth))
            == Then(if frag.name == Some(to) && Included(w, doc, frag, ref)
                    then Then(Done(was), EvalSels(w, doc, ref, field, frag.sels, depth)) else Done(was),
                    EvalSpread(w, doc, ref, field, to, doc.frags[j + 1..], depth))
  {
    var frags := doc.frags[j..];
    assert frags[0] == doc.frags[j] && frags[1..] == doc.frags[j + 1..];
    hide Included;
    var one := EvalSels(w, doc, ref, field, frags[0].sels, depth);
    var rest := EvalSpread(w, doc, ref, field, to, doc.frags[j + 1..], depth);
    if one.Done? && rest.Done? {
      assert was + (one.members + rest.members) == was + one.members + rest.members;
    }
  }

  /** The loop over the fragments of a name. */
  method EvalNamed(w: World, doc: Doc, ref: Obj, field: Option<Field>, to: Name, result: seq<Member>, depth: nat)
    returns (ok: bool, result': seq<Member>)
    requires depth <= MAX_DEPTH + 1
    ensures ok == EvalSpread(w, doc, ref, field, to, doc.frags, depth).Done?
    ensures ok ==> result' == result + EvalSpread(w, doc, ref, field, to, doc.frags, depth).members
    decreases Left(depth), 1, 0
  {
    ok, result' := true, result;
    ghost var members := [];
    assert doc.frags[0..] == doc.frags;
    for j := 0 to |doc.frags|
      invariant ok && result' == result + members
      invariant EvalSpread(w, doc, ref, field, to, doc.frags, depth)
             == Then(Done(members), EvalSpread(w, doc, ref, field, to, doc.frags[j..], depth))
    {
      hide EvalSpread, EvalSels, Included;
      SpreadNext(w, doc, ref, field, to, j, depth, members);
      var frag := doc.frags[j];
      if frag.name == Some(to) {
        var b := FragInclude(w, doc, frag, ref);
        if b {
          ok, result' := EvalLoop(w, doc, ref, field, frag.sels, result', depth);
          if !ok {
            return false, result';
          }
          members := members + EvalSels(w, doc, ref, field, frag.sels, depth).members;
        }
      }
    }
  }

  /** The body of the loop: one selection. */
  method EvalOne(w: World, doc: Doc, ref: Obj, field: Option<Field>, sel: Sel, result: seq<Member>, depth: nat)
    returns (ok: bool, result': seq<Member>)
    requires depth <= MAX_DEPTH + 1
    ensures ok == EvalSel(w, doc, ref, field, sel, depth).Done?
    ensures ok ==> result' == result + EvalSel(w, doc, ref, field, sel, depth).members
    decreases Left(depth), 1
  {
    ok, result' := true, result;
    var sf := SubField(w, field, sel);
    match sel {
      case Inline(frag) =>
        var b := FragInclude(w, doc, frag, ref);
        if b {
          ok, result' := EvalLoop(w, doc, ref, sf, frag.sels, result, depth);
        }
      case Spread(to) =>
        ok, result' := EvalNamed(w, doc, ref, sf, to, result, depth);
      case FieldSel(_, _, _, _, _) =>
        var outcome := Resolve(w, doc, ref, sf, sel, depth);
        if outcome.Failed? {
          return false, result;
        }
        result' := result + outcome.members;
    }
  }
}
