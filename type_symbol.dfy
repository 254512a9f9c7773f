/** A user-defined type in the symbol graph: its identity (parent, syntax
    node, name) is fixed at construction; its method dictionary, ordered field
    dictionary and constructor slot are filled in afterwards. */
module TypeSymbols {
  import opened Common
  import opened Collections
  import Ast

  /** The syntax-level identifier a type exposes. */
  datatype Identifier = Identifier(name: string)

  datatype TypeSymbol = TypeSymbol(
    parent: Ref,                 // always the program root
    ast: Ast.TypeDecl,
    name: string,
    methods: map<string, Ref>,
    fields: OrderedMap<Ref>,     // in declaration order
    ctor: Option<Ref>)    // set by a later pass, never by the builder

  ghost predicate Valid(t: TypeSymbol) {
    Collections.Valid(t.fields)
  }

  /** `new TypeSymbol(parent, ast)`. */
  function NewTypeSymbol(parent: Ref, ast: Ast.TypeDecl): (t: TypeSymbol)
    ensures Valid(t)
    ensures t.parent == parent && t.ast == ast && t.name == ast.name
    ensures t.methods == map[] && t.fields.keys == [] && t.fields.items == map[]
    ensures t.ctor.None?
  {
    TypeSymbol(parent, ast, ast.name, map[], EmptyOrdered(), None)
  }

  /** The `Identifier` property: rebuilt from `Name` on every read. */
  function IdentifierOf(t: TypeSymbol): (id: Identifier)
    ensures id.name == t.name
  {
    Identifier(t.name)
  }

  /** Two types expose the same identifier exactly when they have the same name. */
  lemma IdentifierFollowsName(t: TypeSymbol, u: TypeSymbol)
    ensures IdentifierOf(t) == IdentifierOf(u) <==> t.name == u.name
  {
  }

  /** What a type keeps for ever once built: parent, syntax node, name and
      (for the builder) the unset constructor slot. */
  ghost predicate SameIdentity(t: TypeSymbol, t': TypeSymbol) {
    t'.parent == t.parent && t'.ast == t.ast && t'.name == t.name && t'.ctor == t.ctor
  }

  /** The only way the builder changes a type: its dictionaries grow. */
  ghost predicate Grows(t: TypeSymbol, t': TypeSymbol) {
    SameIdentity(t, t') && SubMap(t.methods, t'.methods) && OrderedGrows(t.fields, t'.fields)
  }

  /** `Fields.Add(name, field)`; None is the duplicate-key exception. */
  function AddField(t: TypeSymbol, name: string, field: Ref): (r: Option<TypeSymbol>)
    ensures r.None? <==> name in t.fields.items
    ensures r.Some? && Valid(t) ==> Valid(r.value)
    ensures r.Some? ==> Grows(t, r.value) && r.value.methods == t.methods
    ensures r.Some? ==> r.value.fields.keys == t.fields.keys + [name]
    ensures r.Some? ==> r.value.fields.items == t.fields.items[name := field]
  {
    match OrderedAdd(t.fields, name, field)
    case None => None
    case Some(fs) => Some(t.(fields := fs))
  }

  /** `Methods.Add(name, methodRef)`; None is the duplicate-key exception. */
  function AddMethod(t: TypeSymbol, name: string, methodRef: Ref): (r: Option<TypeSymbol>)
    ensures r.None? <==> name in t.methods
    ensures r.Some? ==> Grows(t, r.value) && r.value.fields == t.fields
    ensures r.Some? ==> r.value.methods == t.methods[name := methodRef]
  {
    match DictionaryAdd(t.methods, name, methodRef)
    case None => None
    case Some(ms) => Some(t.(methods := ms))
  }

  /** Adding fields one after another lists them in the order they were added. */
  lemma {:induction false} FieldsKeepInsertionOrder(t: TypeSymbol, t': TypeSymbol, name: string, field: Ref)
    requires Valid(t)
    requires AddField(t, name, field) == Some(t')
    ensures t'.fields.keys[|t'.fields.keys| - 1] == name
    ensures t'.fields.keys[..|t.fields.keys|] == t.fields.keys
    ensures forall i :: 0 <= i < |t.fields.keys| ==> t'.fields.keys[i] != name
  {
  }
}
