/** The set of type names that retain one of a few seed types, computed by passes over the declarations until a
    pass adds nothing. */
module RetainedTypes {

  /** A type expression, as far as the retention check looks into it; any other expression is `Other`. */
  datatype TypeExpr =
    | Absent
    | Ident(name: string)
    | IndexExpr(x: TypeExpr, index: TypeExpr)
    | IndexListExpr(x: TypeExpr, indices: seq<TypeExpr>)
    | ParenExpr(x: TypeExpr)
    | StarExpr(x: TypeExpr)
    | ArrayType(elt: TypeExpr)
    | MapType(key: TypeExpr, value: TypeExpr)
    | ChanType(value: TypeExpr)
    | Ellipsis(elt: TypeExpr)
    | StructType(fields: FieldList)
    | InterfaceType(methods: FieldList)
    | FuncType(params: FieldList, results: FieldList)
    | Other

  datatype FieldList = NoFields | Fields(list: seq<TypeExpr>)

  datatype Spec = TypeSpec(name: string, typ: TypeExpr) | OtherSpec
  datatype Decl = GenDecl(specs: seq<Spec>) | OtherDecl
  type File = seq<Decl>

  /** Whether the expression mentions one of the names where a value of the type would hold one. */
  predicate Retains(e: TypeExpr, names: set<string>) {
    match e
    case Absent => false
    case Ident(name) => name in names
    case IndexExpr(x, index) => Retains(x, names) || Retains(index, names)
    case IndexListExpr(x, indices) => Retains(x, names) || exists i :: 0 <= i < |indices| && Retains(indices[i], names)
    case ParenExpr(x) => Retains(x, names)
    case StarExpr(x) => Retains(x, names)
    case ArrayType(elt) => Retains(elt, names)
    case MapType(key, value) => Retains(key, names) || Retains(value, names)
    case ChanType(value) => Retains(value, names)
    case Ellipsis(elt) => Retains(elt, names)
    case StructType(fields) => FieldsRetain(fields, names)
    case InterfaceType(methods) => FieldsRetain(methods, names)
    case FuncType(params, results) => FieldsRetain(params, names) || FieldsRetain(results, names)
    case Other => false
  }

  predicate FieldsRetain(fields: FieldList, names: set<string>) {
    fields.Fields? && exists i :: 0 <= i < |fields.list| && Retains(fields.list[i], names)
  }

  function FieldTypes(fields: FieldList): seq<TypeExpr> {
    if fields.Fields? then fields.list else []
  }

  /** The expressions a type expression is made of, in their order. */
  function Parts(e: TypeExpr): seq<TypeExpr> {
    match e
    case Ident(_) => []
    case IndexExpr(x, index) => [x, index]
    case IndexListExpr(x, indices) => [x] + indices
    case ParenExpr(x) => [x]
    case StarExpr(x) => [x]
    case ArrayType(elt) => [elt]
    case MapType(key, value) => [key, value]
    case ChanType(value) => [value]
    case Ellipsis(elt) => [elt]
    case StructType(fields) => FieldTypes(fields)
    case InterfaceType(methods) => FieldTypes(methods)
    case FuncType(params, results) => FieldTypes(params) + FieldTypes(results)
    case Absent => []
    case Other => []
  }

  /** Going down the parts at these positions leads to the name. */
  ghost predicate LeadsTo(e: TypeExpr, path: seq<nat>, name: string)
    decreases |path|
  {
    if path == [] then e == Ident(name)
    else path[0] < |Parts(e)| && LeadsTo(Parts(e)[path[0]], path[1..], name)
  }

  /** The name stands somewhere in the expression. */
  ghost predicate Occurs(e: TypeExpr, name: string) {
    exists path :: LeadsTo(e, path, name)
  }

  lemma OccursInPart(e: TypeExpr, name: string)
    ensures Occurs(e, name) <==> e == Ident(name) || exists i :: 0 <= i < |Parts(e)| && Occurs(Parts(e)[i], name)
  {
    hide Parts;
    if path :| LeadsTo(e, path, name) {
      if path != [] {
        assert LeadsTo(Parts(e)[path[0]], path[1..], name);
      }
    }
    if e == Ident(name) {
      assert LeadsTo(e, [], name);
    }
    if i :| 0 <= i < |Parts(e)| && Occurs(Parts(e)[i], name) {
      var path :| LeadsTo(Parts(e)[i], path, name);
      assert ([i] + path)[1..] == path;
      assert LeadsTo(e, [i] + path, name);
    }
  }

  lemma RetainsInPart(e: TypeExpr, names: set<string>)
    ensures Retains(e, names)
       <==> (e.Ident? && e.name in names) || exists i :: 0 <= i < |Parts(e)| && Retains(Parts(e)[i], names)
  {
    var parts := Parts(e);
    match e
    case IndexExpr(x, index) =>
      assert parts[0] == x && parts[1] == index;
    case IndexListExpr(x, indices) =>
      assert parts[0] == x && forall i :: 0 <= i < |indices| ==> parts[i + 1] == indices[i];
      assert forall i :: 1 <= i < |parts| ==> parts[i] == indices[i - 1];
    case MapType(key, value) =>
      assert parts[0] == key && parts[1] == value;
    case FuncType(params, results) =>
      var n := |FieldTypes(params)|;
      assert forall i :: 0 <= i < n ==> parts[i] == FieldTypes(params)[i];
      assert forall i :: 0 <= i < |FieldTypes(results)| ==> parts[n + i] == FieldTypes(results)[i];
      assert forall i :: n <= i < |parts| ==> parts[i] == FieldTypes(results)[i - n];
    case ParenExpr(x) => assert parts[0] == x;
    case StarExpr(x) => assert parts[0] == x;
    case ArrayType(elt) => assert parts[0] == elt;
    case ChanType(value) => assert parts[0] == value;
    case Ellipsis(elt) => assert parts[0] == elt;
    case _ =>
  }

  lemma PartIsSmaller(e: TypeExpr, i: nat)
    requires i < |Parts(e)|
    ensures Parts(e)[i] < e
  {
  }

  /** An expression retains a set of names exactly when one of them stands somewhere in it, however deep. */
  lemma {:induction false} RetainsWhatOccurs(e: TypeExpr, names: set<string>)
    ensures Retains(e, names) <==> exists n :: n in names && Occurs(e, n)
    decreases e
  {
    hide Retains, Parts, Occurs;
    RetainsInPart(e, names);
    forall i | 0 <= i < |Parts(e)|
      ensures Retains(Parts(e)[i], names) <==> exists n :: n in names && Occurs(Parts(e)[i], n)
    {
      PartIsSmaller(e, i);
      RetainsWhatOccurs(Parts(e)[i], names);
    }
    forall n
      ensures Occurs(e, n) <==> e == Ident(n) || exists i :: 0 <= i < |Parts(e)| && Occurs(Parts(e)[i], n)
    {
      OccursInPart(e, n);
    }
    if e.Ident? && e.name in names {
      assert Occurs(e, e.name);
    }
  }

  /** The loop over a field list. */
  method FieldListRetains(fields: FieldList, names: set<string>) returns (retains: bool)
    ensures retains <==> FieldsRetain(fields, names)
  {
    if fields.NoFields? {
      return false;
    }
    for i := 0 to |fields.list|
      invariant forall j :: 0 <= j < i ==> !Retains(fields.list[j], names)
    {
      if Retains(fields.list[i], names) {
        return true;
      }
    }
    return false;
  }

  /** The check distributes over union, so it only ever depends on single names. */
  lemma {:induction false} RetainsByOneName(e: TypeExpr, names: set<string>)
    ensures Retains(e, names) <==> exists n :: n in names && Retains(e, {n})
    decreases e
  {
    match e
    case Absent =>
    case Ident(name) =>
    case IndexExpr(x, index) =>
      RetainsByOneName(x, names);
      RetainsByOneName(index, names);
    case IndexListExpr(x, indices) =>
      RetainsByOneName(x, names);
      forall i | 0 <= i < |indices|
        ensures Retains(indices[i], names) <==> exists n :: n in names && Retains(indices[i], {n})
      {
        RetainsByOneName(indices[i], names);
      }
    case ParenExpr(x) => RetainsByOneName(x, names);
    case StarExpr(x) => RetainsByOneName(x, names);
    case ArrayType(elt) => RetainsByOneName(elt, names);
    case MapType(key, value) =>
      RetainsByOneName(key, names);
      RetainsByOneName(value, names);
    case ChanType(value) => RetainsByOneName(value, names);
    case Ellipsis(elt) => RetainsByOneName(elt, names);
    case StructType(fields) => FieldsRetainByOneName(fields, names);
    case InterfaceType(methods) => FieldsRetainByOneName(methods, names);
    case FuncType(params, results) =>
      FieldsRetainByOneName(params, names);
      FieldsRetainByOneName(results, names);
    case Other =>
  }

  lemma {:induction false} FieldsRetainByOneName(fields: FieldList, names: set<string>)
    ensures FieldsRetain(fields, names) <==> exists n :: n in names && FieldsRetain(fields, {n})
    decreases fields
  {
    if fields.Fields? {
      forall i | 0 <= i < |fields.list|
        ensures Retains(fields.list[i], names) <==> exists n :: n in names && Retains(fields.list[i], {n})
      {
        RetainsByOneName(fields.list[i], names);
      }
    }
  }

  lemma RetainsIsMonotone(e: TypeExpr, smaller: set<string>, larger: set<string>)
    requires smaller <= larger && Retains(e, smaller)
    ensures Retains(e, larger)
  {
    RetainsByOneName(e, smaller);
    RetainsByOneName(e, larger);
  }

  /** Some file declares `name` as the type `e`. */
  ghost predicate Declares(files: map<string, File>, name: string, e: TypeExpr) {
    exists f :: f in files && FileDeclares(files[f], name, e)
  }

  ghost predicate FileDeclares(file: File, name: string, e: TypeExpr) {
    exists d :: 0 <= d < |file| && DeclDeclares(file[d], name, e)
  }

  ghost predicate DeclDeclares(declaration: Decl, name: string, e: TypeExpr) {
    declaration.GenDecl? && TypeSpec(name, e) in declaration.specs
  }

  /** Nothing declared in the files retains a name of the set without being in the set; `Mux` is exempt. */
  ghost predicate ClosedUnder(files: map<string, File>, names: set<string>) {
    forall f :: f in files ==> FileClosed(files[f], names)
  }

  ghost predicate FileClosed(file: File, names: set<string>) {
    forall d :: 0 <= d < |file| ==> DeclClosed(file[d], names)
  }

  ghost predicate DeclClosed(declaration: Decl, names: set<string>) {
    declaration.GenDecl? ==> forall i :: 0 <= i < |declaration.specs| ==> SpecClosed(declaration.specs[i], names)
  }

  ghost predicate SpecClosed(item: Spec, names: set<string>) {
    item.TypeSpec? && item.name != "Mux" && Retains(item.typ, names) ==> item.name in names
  }

  ghost predicate IsLeastClosed(files: map<string, File>, seeds: set<string>, names: set<string>) {
    && seeds <= names
    && ClosedUnder(files, names)
    && forall other: set<string> :: seeds <= other && ClosedUnder(files, other) ==> names <= other
  }

  /** All names the files declare. */
  ghost function DeclaredNames(files: map<string, File>): set<string> {
    set f, d, i | f in files && 0 <= d < |files[f]| && files[f][d].GenDecl? && 0 <= i < |files[f][d].specs|
                  && files[f][d].specs[i].TypeSpec? :: files[f][d].specs[i].name
  }

  /** Every closed set that holds the seeds holds `names`. */
  ghost predicate Forced(files: map<string, File>, seeds: set<string>, names: set<string>) {
    forall other: set<string> :: seeds <= other && ClosedUnder(files, other) ==> names <= other
  }

  /** `changed` reports whether names were added since `entry`. */
  ghost predicate Tracks(changed: bool, entry: set<string>, names: set<string>) {
    entry <= names && (changed <==> names != entry)
  }

  lemma RetainedNameIsForced(files: map<string, File>, seeds: set<string>, names: set<string>, f: string, d: nat,
                             i: nat)
    requires Forced(files, seeds, names)
    requires f in files && d < |files[f]| && files[f][d].GenDecl? && i < |files[f][d].specs|
    requires var item := files[f][d].specs[i];
             item.TypeSpec? && item.name != "Mux" && Retains(item.typ, names)
    ensures Forced(files, seeds, names + {files[f][d].specs[i].name})
  {
    var item := files[f][d].specs[i];
    forall other: set<string> | seeds <= other && ClosedUnder(files, other)
      ensures names + {item.name} <= other
    {
      RetainsIsMonotone(item.typ, names, other);
      assert FileClosed(files[f], other) && DeclClosed(files[f][d], other) && SpecClosed(item, other);
    }
  }

  /** The mutable set of names the passes grow. */
  class NameSet {
    var members: set<string>

    constructor (members: set<string>)
      ensures this.members == members
    {
      this.members := members;
    }

    /** Grows the set to the least one that holds its members and is closed under the declarations. The files
        are taken in any order, and in a new one on each pass. */
    method ExpandRetainedTypeNames(files: map<string, File>)
      modifies this
      ensures IsLeastClosed(files, old(members), members)
    {
      ghost var seeds := members;
      while true
        invariant seeds <= members <= seeds + DeclaredNames(files)
        invariant Forced(files, seeds, members)
        decreases seeds + DeclaredNames(files) - members
      {
        var changed := VisitFiles(files, seeds);
        if !changed {
          return;
        }
      }
    }

    /** One pass over all files. */
    method VisitFiles(files: map<string, File>, ghost seeds: set<string>) returns (changed: bool)
      requires seeds <= members <= seeds + DeclaredNames(files) && Forced(files, seeds, members)
      modifies this
      ensures members <= seeds + DeclaredNames(files) && Forced(files, seeds, members)
      ensures Tracks(changed, old(members), members)
      ensures !changed ==> ClosedUnder(files, members)
    {
      changed := false;
      var remaining := files.Keys;
      while remaining != {}
        invariant remaining <= files.Keys
        invariant seeds <= members <= seeds + DeclaredNames(files) && Forced(files, seeds, members)
        invariant Tracks(changed, old(members), members)
        invariant !changed ==> forall f :: f in files && f !in remaining ==> FileClosed(files[f], members)
        decreases remaining
      {
        var f :| f in remaining;
        remaining := remaining - {f};
        var added := VisitFile(files, f, seeds);
        changed := changed || added;
      }
    }

    method VisitFile(files: map<string, File>, f: string, ghost seeds: set<string>) returns (changed: bool)
      requires f in files
      requires seeds <= members <= seeds + DeclaredNames(files) && Forced(files, seeds, members)
      modifies this
      ensures members <= seeds + DeclaredNames(files) && Forced(files, seeds, members)
      ensures Tracks(changed, old(members), members)
      ensures !changed ==> FileClosed(files[f], members)
    {
      changed := false;
      for d := 0 to |files[f]|
        invariant seeds <= members <= seeds + DeclaredNames(files) && Forced(files, seeds, members)
        invariant Tracks(changed, old(members), members)
        invariant !changed ==> forall j :: 0 <= j < d ==> DeclClosed(files[f][j], members)
      {
        if files[f][d].GenDecl? {
          var added := VisitSpecs(files, f, d, seeds);
          changed := changed || added;
        }
      }
    }

    method VisitSpecs(files: map<string, File>, f: string, d: nat, ghost seeds: set<string>) returns (changed: bool)
      requires f in files && d < |files[f]| && files[f][d].GenDecl?
      requires seeds <= members <= seeds + DeclaredNames(files) && Forced(files, seeds, members)
      modifies this
      ensures members <= seeds + DeclaredNames(files) && Forced(files, seeds, members)
      ensures Tracks(changed, old(members), members)
      ensures !changed ==> DeclClosed(files[f][d], members)
    {
      changed := false;
      var specs := files[f][d].specs;
      for i := 0 to |specs|
        invariant seeds <= members <= seeds + DeclaredNames(files) && Forced(files, seeds, members)
        invariant Tracks(changed, old(members), members)
        invariant !changed ==> forall j :: 0 <= j < i ==> SpecClosed(specs[j], members)
      {
        var item := specs[i];
        if !item.TypeSpec? || item.name in members || item.name == "Mux" {
          continue;
        }
        if Retains(item.typ, members) {
          RetainedNameIsForced(files, seeds, members, f, d, i);
          members := members + {item.name};
          changed := true;
        }
      }
    }
  }

  /** A declaration of `name` leads in one step to the name `next`, which stands somewhere in the declared type. */
  ghost predicate Leads(files: map<string, File>, name: string, next: string) {
    name != "Mux" && exists e :: Declares(files, name, e) && Occurs(e, next)
  }

  /** A chain of declarations from its first name to a seed. */
  ghost predicate IsChain(files: map<string, File>, seeds: set<string>, p: seq<string>) {
    && |p| > 0 && p[|p| - 1] in seeds
    && forall i :: 0 <= i < |p| - 1 ==> Leads(files, p[i], p[i + 1])
  }

  ghost predicate HasChain(files: map<string, File>, seeds: set<string>, name: string) {
    exists p :: IsChain(files, seeds, p) && p[0] == name
  }

  lemma ClosedContainsDeclared(files: map<string, File>, names: set<string>, name: string, e: TypeExpr)
    requires ClosedUnder(files, names) && Declares(files, name, e)
    requires name != "Mux" && Retains(e, names)
    ensures name in names
  {
    var f :| f in files && FileDeclares(files[f], name, e);
    var d :| 0 <= d < |files[f]| && DeclDeclares(files[f][d], name, e);
    var i :| 0 <= i < |files[f][d].specs| && files[f][d].specs[i] == TypeSpec(name, e);
    assert FileClosed(files[f], names) && DeclClosed(files[f][d], names) && SpecClosed(files[f][d].specs[i], names);
  }

  lemma {:induction false} ChainStaysInside(files: map<string, File>, seeds: set<string>, names: set<string>,
                                            p: seq<string>)
    requires seeds <= names && ClosedUnder(files, names) && IsChain(files, seeds, p)
    ensures p[0] in names
  {
    if |p| > 1 {
      assert Leads(files, p[0], p[1]);
      var q := p[1..];
      forall i | 0 <= i < |q| - 1
        ensures Leads(files, q[i], q[i + 1])
      {
        assert q[i] == p[i + 1] && q[i + 1] == p[i + 1 + 1];
      }
      ChainStaysInside(files, seeds, names, q);
      var e :| Declares(files, p[0], e) && Occurs(e, p[1]);
      RetainsWhatOccurs(e, names);
      ClosedContainsDeclared(files, names, p[0], e);
    }
  }

  lemma ChainGrows(files: map<string, File>, seeds: set<string>, name: string, next: string)
    requires Leads(files, name, next) && HasChain(files, seeds, next)
    ensures HasChain(files, seeds, name)
  {
    var p :| IsChain(files, seeds, p) && p[0] == next;
    var q := [name] + p;
    assert q[1..] == p;
    forall i | 0 <= i < |q| - 1
      ensures Leads(files, q[i], q[i + 1])
    {
      if i > 0 {
        assert q[i] == p[i - 1] && q[i + 1] == p[i - 1 + 1];
      }
    }
    assert IsChain(files, seeds, q) && q[0] == name;
  }

  /** The names that have a chain form a closed set. */
  lemma ChainedNamesAreClosed(files: map<string, File>, seeds: set<string>, names: set<string>)
    requires ClosedUnder(files, names)
    ensures ClosedUnder(files, set n | n in names && HasChain(files, seeds, n))
  {
    var chained := set n | n in names && HasChain(files, seeds, n);
    forall f, d, i | f in files && 0 <= d < |files[f]| && files[f][d].GenDecl? && 0 <= i < |files[f][d].specs|
      ensures SpecClosed(files[f][d].specs[i], chained)
    {
      var item := files[f][d].specs[i];
      if item.TypeSpec? && item.name != "Mux" && Retains(item.typ, chained) {
        assert DeclDeclares(files[f][d], item.name, item.typ);
        assert FileDeclares(files[f], item.name, item.typ);
        assert Declares(files, item.name, item.typ);
        RetainsIsMonotone(item.typ, chained, names);
        ClosedContainsDeclared(files, names, item.name, item.typ);
        RetainsWhatOccurs(item.typ, chained);
        var n :| n in chained && Occurs(item.typ, n);
        assert Leads(files, item.name, n);
        ChainGrows(files, seeds, item.name, n);
      }
    }
    forall f | f in files
      ensures FileClosed(files[f], chained)
    {
      forall d | 0 <= d < |files[f]|
        ensures DeclClosed(files[f][d], chained)
      {
      }
    }
  }

  /** The least closed set is the set of names from which a chain of declarations leads to a seed; it therefore
      depends on the declarations and the seeds alone, not on the order of any pass. */
  lemma LeastClosedIsChained(files: map<string, File>, seeds: set<string>, names: set<string>)
    requires IsLeastClosed(files, seeds, names)
    ensures forall n :: n in names <==> HasChain(files, seeds, n)
  {
    var chained := set n | n in names && HasChain(files, seeds, n);
    ChainedNamesAreClosed(files, seeds, names);
    forall n | n in seeds
      ensures HasChain(files, seeds, n)
    {
      assert IsChain(files, seeds, [n]);
    }
    assert seeds <= chained;
    forall n | HasChain(files, seeds, n)
      ensures n in names
    {
      var p :| IsChain(files, seeds, p) && p[0] == n;
      ChainStaysInside(files, seeds, names, p);
    }
  }
}
