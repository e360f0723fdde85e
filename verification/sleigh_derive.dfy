/** The `#[derive(Sleigh)]` macro's decision logic: which `#[sleigh(...)]`
    items are consulted, how the key field and the `auto` flag are found,
    which misuses are reported, and whether the impl, the errors or a panic
    comes out. The `syn` syntax tree is abstracted to the parts the macro
    looks at. */
module SleighDerive {
  import opened Bytes
  import opened Options
  import opened ErrorContext
  import Utf8

  /** One item inside `#[sleigh(...)]`: a bare word, any other meta item
      (a list or a name-value pair, known by its name), or a literal. */
  datatype Nested = Word(word: string) | OtherMeta(name: string) | Literal

  /** What `interpret_meta` made of an attribute: a list, or anything else
      (a bare word, a name-value pair, or nothing parseable). */
  datatype ParsedMeta = MetaList(nested: seq<Nested>) | NotList

  /** An outer attribute on a field: its path segments and parsed meta. */
  datatype Attribute = Attribute(path: seq<string>, meta: ParsedMeta)

  /** A field's type: a path type with its segments, or some other type. */
  datatype FieldType = TypePath(segments: seq<string>) | OtherType

  /** A struct field: tuple-struct fields have no identifier. */
  datatype Field = Field(ident: Option<string>, ty: FieldType, attrs: seq<Attribute>)

  /** The derive input's body: a struct's fields, or an enum or union. */
  datatype Data = Struct(fields: seq<Field>) | NotStruct

  datatype DeriveInput = DeriveInput(ident: string, data: Data)

  /** What the attribute pass collects: the key field's name and the `auto` flag. */
  datatype Attrs = Attrs(key: Option<string>, auto: bool)

  /** `Attrs::default()`: no key field, `auto` unset. */
  function DefaultAttrs(): (a: Attrs)
    ensures a.key.None? && !a.auto
  {
    Attrs(None, false)
  }

  /** `get_sleigh_meta_items`: the items of an attribute whose path is the
      single segment `sleigh` and which parses as a list; every other
      attribute, a bare `#[sleigh]` included, yields nothing. */
  function SleighMetaItems(attr: Attribute): (r: Option<seq<Nested>>)
    ensures r.Some? <==> attr.path == ["sleigh"] && attr.meta.MetaList?
    ensures r.Some? ==> r.value == attr.meta.nested
  {
    if |attr.path| == 1 && attr.path[0] == "sleigh" then
      match attr.meta
      case MetaList(nested) => Some(nested)
      case NotList => None
    else None
  }

  /** `p.path.is_ident("u64")` on a path type; any other type is not `u64`.
      Only the bare one-segment path `u64` qualifies. */
  function IsU64(ty: FieldType): (b: bool)
    ensures b <==> ty == TypePath(["u64"])
  {
    match ty
    case TypePath(segments) =>
      assert |segments| == 1 && segments[0] == "u64" ==> segments == ["u64"];
      |segments| == 1 && segments[0] == "u64"
    case OtherType => false
  }

  /** The misuse reported for an item seen on field `f`, if any: `auto` on a
      field that is not `u64`, any word other than `key` and `auto`, any
      other meta item, any literal. */
  function ItemError(f: Field, item: Nested): Option<Message> {
    match item
    case Word(w) =>
      if w == "key" then None
      else if w == "auto" then (if IsU64(f.ty) then None else Some(AutoKeyNotU64))
      else Some(UnknownAttribute(w))
    case OtherMeta(name) => Some(UnknownAttribute(name))
    case Literal => Some(UnexpectedLiteral)
  }

  function OptionToSeq(o: Option<Message>): seq<Message> {
    if o.Some? then [o.value] else []
  }

  /** `handle_meta_item`: one `#[sleigh(...)]` item on field `f`. */
  function HandleMetaItem(ctx: Context, attrs: Attrs, f: Field, item: Nested): (r: (Context, Attrs))
    requires ctx.Unchecked?
    ensures r.0.Unchecked?
    ensures r.0.errors == ctx.errors + OptionToSeq(ItemError(f, item))
    ensures r.1.key == if item == Word("key") && f.ident.Some? then f.ident else attrs.key
    ensures r.1.auto == (attrs.auto || item == Word("auto"))
  {
    match item
    case Word(w) =>
      if w == "key" then
        (ctx, if f.ident.Some? then attrs.(key := f.ident) else attrs)
      else if w == "auto" then
        var attrs' := attrs.(auto := true);
        if !IsU64(f.ty) then (ErrorSpannedBy(ctx, AutoKeyNotU64), attrs') else (ctx, attrs')
      else
        (ErrorSpannedBy(ctx, UnknownAttribute(w)), attrs)
    case OtherMeta(name) => (ErrorSpannedBy(ctx, UnknownAttribute(name)), attrs)
    case Literal => (ErrorSpannedBy(ctx, UnexpectedLiteral), attrs)
  }

  /** The innermost loop of `parse_attrs`: the items of one attribute. */
  function HandleItems(ctx: Context, attrs: Attrs, f: Field, items: seq<Nested>): (r: (Context, Attrs))
    requires ctx.Unchecked?
    ensures r.0.Unchecked?
    decreases |items|
  {
    if |items| == 0 then (ctx, attrs)
    else
      var (c, a) := HandleMetaItem(ctx, attrs, f, items[0]);
      HandleItems(c, a, f, items[1..])
  }

  /** The middle loop of `parse_attrs`: a field's attributes, filtered by
      `get_sleigh_meta_items`. */
  function HandleAttributes(ctx: Context, attrs: Attrs, f: Field, attributes: seq<Attribute>): (r: (Context, Attrs))
    requires ctx.Unchecked?
    ensures r.0.Unchecked?
    decreases |attributes|
  {
    if |attributes| == 0 then (ctx, attrs)
    else
      match SleighMetaItems(attributes[0])
      case None => HandleAttributes(ctx, attrs, f, attributes[1..])
      case Some(items) =>
        var (c, a) := HandleItems(ctx, attrs, f, items);
        HandleAttributes(c, a, f, attributes[1..])
  }

  /** The outer loop of `parse_attrs`: the struct's fields in order. */
  function HandleFields(ctx: Context, attrs: Attrs, fields: seq<Field>): (r: (Context, Attrs))
    requires ctx.Unchecked?
    ensures r.0.Unchecked?
    decreases |fields|
  {
    if |fields| == 0 then (ctx, attrs)
    else
      var (c, a) := HandleAttributes(ctx, attrs, fields[0], fields[0].attrs);
      HandleFields(c, a, fields[1..])
  }

  /** `parse_attrs`: a non-struct input records one error and yields the
      default attributes without looking at anything else. */
  function ParseAttrs(ctx: Context, input: DeriveInput): (r: (Context, Attrs))
    requires ctx.Unchecked?
    ensures r.0.Unchecked?
    ensures input.data.NotStruct? ==> r.0.errors == ctx.errors + [NotAStruct] && r.1 == DefaultAttrs()
  {
    match input.data
    case NotStruct => (ErrorSpannedBy(ctx, NotAStruct), DefaultAttrs())
    case Struct(fields) => HandleFields(ctx, DefaultAttrs(), fields)
  }

  /** An attribute that is not a `#[sleigh(...)]` list is skipped wherever
      it appears: no error, no change to the collected attributes. */
  lemma {:induction false} UnconsultedAttributeIgnored(ctx: Context, attrs: Attrs, f: Field,
                                                       pre: seq<Attribute>, a: Attribute, post: seq<Attribute>)
    requires ctx.Unchecked? && SleighMetaItems(a).None?
    ensures HandleAttributes(ctx, attrs, f, pre + [a] + post) == HandleAttributes(ctx, attrs, f, pre + post)
    decreases |pre|
  {
    var all, without := pre + [a] + post, pre + post;
    if |pre| == 0 {
      assert all[0] == a && all[1..] == post && without == post;
    } else {
      assert all[0] == pre[0] && all[1..] == pre[1..] + [a] + post;
      assert without[0] == pre[0] && without[1..] == pre[1..] + post;
      match SleighMetaItems(pre[0])
      case None =>
        UnconsultedAttributeIgnored(ctx, attrs, f, pre[1..], a, post);
      case Some(items) =>
        var (c, a') := HandleItems(ctx, attrs, f, items);
        UnconsultedAttributeIgnored(c, a', f, pre[1..], a, post);
    }
  }

  // ---- The attribute pass as one sequence of visits ----

  /** One call of `handle_meta_item`: the field and the item it is given. */
  datatype Visit = Visit(field: Field, item: Nested)

  /** The items of one consulted attribute, paired with their field. */
  function ItemVisits(f: Field, items: seq<Nested>): (vs: seq<Visit>)
    ensures |vs| == |items|
    ensures forall i :: 0 <= i < |items| ==> vs[i] == Visit(f, items[i])
  {
    seq(|items|, i requires 0 <= i < |items| => Visit(f, items[i]))
  }

  /** The items of a field's consulted attributes, in attribute order. */
  function AttributeVisits(f: Field, attributes: seq<Attribute>): seq<Visit>
    decreases |attributes|
  {
    if |attributes| == 0 then []
    else
      var here := match SleighMetaItems(attributes[0])
        case None => []
        case Some(items) => ItemVisits(f, items);
      here + AttributeVisits(f, attributes[1..])
  }

  /** Every item `parse_attrs` hands to `handle_meta_item`, in order: field
      by field, attribute by attribute, item by item. */
  function Visits(fields: seq<Field>): seq<Visit>
    decreases |fields|
  {
    if |fields| == 0 then [] else AttributeVisits(fields[0], fields[0].attrs) + Visits(fields[1..])
  }

  /** `handle_meta_item` applied to a sequence of visits. */
  function Run(ctx: Context, attrs: Attrs, vs: seq<Visit>): (r: (Context, Attrs))
    requires ctx.Unchecked?
    ensures r.0.Unchecked?
    decreases |vs|
  {
    if |vs| == 0 then (ctx, attrs)
    else
      var (c, a) := HandleMetaItem(ctx, attrs, vs[0].field, vs[0].item);
      Run(c, a, vs[1..])
  }

  /** A `key` word on a named field. */
  predicate IsKeyMark(v: Visit) {
    v.item == Word("key") && v.field.ident.Some?
  }

  predicate NoKeyMark(vs: seq<Visit>) {
    forall i :: 0 <= i < |vs| ==> !IsKeyMark(vs[i])
  }

  /** The errors the visits report, in order. */
  function ErrorsOf(vs: seq<Visit>): seq<Message>
    decreases |vs|
  {
    if |vs| == 0 then [] else OptionToSeq(ItemError(vs[0].field, vs[0].item)) + ErrorsOf(vs[1..])
  }

  lemma {:induction false} RunAppend(ctx: Context, attrs: Attrs, vs1: seq<Visit>, vs2: seq<Visit>)
    requires ctx.Unchecked?
    ensures Run(ctx, attrs, vs1 + vs2) == Run(Run(ctx, attrs, vs1).0, Run(ctx, attrs, vs1).1, vs2)
    decreases |vs1|
  {
    if |vs1| == 0 {
      assert vs1 + vs2 == vs2;
    } else {
      var (c, a) := HandleMetaItem(ctx, attrs, vs1[0].field, vs1[0].item);
      assert (vs1 + vs2)[0] == vs1[0] && (vs1 + vs2)[1..] == vs1[1..] + vs2;
      RunAppend(c, a, vs1[1..], vs2);
    }
  }

  lemma {:induction false} HandleItemsIsRun(ctx: Context, attrs: Attrs, f: Field, items: seq<Nested>)
    requires ctx.Unchecked?
    ensures HandleItems(ctx, attrs, f, items) == Run(ctx, attrs, ItemVisits(f, items))
    decreases |items|
  {
    if |items| > 0 {
      var (c, a) := HandleMetaItem(ctx, attrs, f, items[0]);
      assert ItemVisits(f, items)[1..] == ItemVisits(f, items[1..]);
      HandleItemsIsRun(c, a, f, items[1..]);
    }
  }

  lemma {:induction false} HandleAttributesIsRun(ctx: Context, attrs: Attrs, f: Field, attributes: seq<Attribute>)
    requires ctx.Unchecked?
    ensures HandleAttributes(ctx, attrs, f, attributes) == Run(ctx, attrs, AttributeVisits(f, attributes))
    decreases |attributes|
  {
    if |attributes| > 0 {
      var rest := AttributeVisits(f, attributes[1..]);
      match SleighMetaItems(attributes[0])
      case None =>
        assert AttributeVisits(f, attributes) == [] + rest == rest;
        HandleAttributesIsRun(ctx, attrs, f, attributes[1..]);
        assert HandleAttributes(ctx, attrs, f, attributes) == HandleAttributes(ctx, attrs, f, attributes[1..]);
      case Some(items) =>
        var (c, a) := HandleItems(ctx, attrs, f, items);
        HandleItemsIsRun(ctx, attrs, f, items);
        RunAppend(ctx, attrs, ItemVisits(f, items), rest);
        HandleAttributesIsRun(c, a, f, attributes[1..]);
    }
  }

  lemma {:induction false} HandleFieldsIsRun(ctx: Context, attrs: Attrs, fields: seq<Field>)
    requires ctx.Unchecked?
    ensures HandleFields(ctx, attrs, fields) == Run(ctx, attrs, Visits(fields))
    decreases |fields|
  {
    if |fields| > 0 {
      var (c, a) := HandleAttributes(ctx, attrs, fields[0], fields[0].attrs);
      HandleAttributesIsRun(ctx, attrs, fields[0], fields[0].attrs);
      RunAppend(ctx, attrs, AttributeVisits(fields[0], fields[0].attrs), Visits(fields[1..]));
      HandleFieldsIsRun(c, a, fields[1..]);
    }
  }

  /** The key is the identifier of the last `key` mark on a named field; with
      no such mark it stays as it was. */
  lemma {:induction false} RunKey(ctx: Context, attrs: Attrs, vs: seq<Visit>)
    requires ctx.Unchecked?
    ensures NoKeyMark(vs) ==> Run(ctx, attrs, vs).1.key == attrs.key
    ensures forall i :: 0 <= i < |vs| && IsKeyMark(vs[i]) && NoKeyMark(vs[i + 1..]) ==>
      Run(ctx, attrs, vs).1.key == vs[i].field.ident
    decreases |vs|
  {
    if |vs| > 0 {
      var (c, a) := HandleMetaItem(ctx, attrs, vs[0].field, vs[0].item);
      RunKey(c, a, vs[1..]);
      forall i | 0 <= i < |vs| && IsKeyMark(vs[i]) && NoKeyMark(vs[i + 1..])
        ensures Run(ctx, attrs, vs).1.key == vs[i].field.ident
      {
        if i > 0 {
          assert vs[1..][i - 1] == vs[i] && vs[1..][i..] == vs[i + 1..];
        }
      }
      if NoKeyMark(vs) {
        assert !IsKeyMark(vs[0]);
        assert forall i :: 0 <= i < |vs[1..]| ==> vs[1..][i] == vs[i + 1];
      }
    }
  }

  /** `auto` is set iff some visited item is the word `auto` (or it was already set). */
  lemma {:induction false} RunAuto(ctx: Context, attrs: Attrs, vs: seq<Visit>)
    requires ctx.Unchecked?
    ensures Run(ctx, attrs, vs).1.auto <==> attrs.auto || exists i :: 0 <= i < |vs| && vs[i].item == Word("auto")
    decreases |vs|
  {
    if |vs| > 0 {
      var (c, a) := HandleMetaItem(ctx, attrs, vs[0].field, vs[0].item);
      RunAuto(c, a, vs[1..]);
      if exists i :: 0 <= i < |vs[1..]| && vs[1..][i].item == Word("auto") {
        var i :| 0 <= i < |vs[1..]| && vs[1..][i].item == Word("auto");
        assert vs[i + 1].item == Word("auto");
      }
      if exists i :: 0 <= i < |vs| && vs[i].item == Word("auto") {
        var i :| 0 <= i < |vs| && vs[i].item == Word("auto");
        if i > 0 {
          assert vs[1..][i - 1].item == Word("auto");
        }
      }
    }
  }

  /** The errors are appended in visit order, one per misused item. */
  lemma {:induction false} RunErrors(ctx: Context, attrs: Attrs, vs: seq<Visit>)
    requires ctx.Unchecked?
    ensures Run(ctx, attrs, vs).0.errors == ctx.errors + ErrorsOf(vs)
    decreases |vs|
  {
    if |vs| > 0 {
      var (c, a) := HandleMetaItem(ctx, attrs, vs[0].field, vs[0].item);
      RunErrors(c, a, vs[1..]);
      assert c.errors + ErrorsOf(vs[1..]) == ctx.errors + ErrorsOf(vs);
    }
  }

  /** No error is reported iff no visited item is a misuse. */
  lemma {:induction false} ErrorsOfEmpty(vs: seq<Visit>)
    ensures |ErrorsOf(vs)| == 0 <==> forall i :: 0 <= i < |vs| ==> ItemError(vs[i].field, vs[i].item).None?
    decreases |vs|
  {
    if |vs| > 0 {
      ErrorsOfEmpty(vs[1..]);
      assert forall i :: 0 <= i < |vs[1..]| ==> vs[1..][i] == vs[i + 1];
    }
  }

  /** The last `key` mark, when there is one. */
  lemma {:induction false} LastKeyMark(vs: seq<Visit>) returns (i: nat)
    requires !NoKeyMark(vs)
    ensures i < |vs| && IsKeyMark(vs[i]) && NoKeyMark(vs[i + 1..])
    decreases |vs|
  {
    var n := |vs| - 1;
    if IsKeyMark(vs[n]) {
      i := n;
    } else {
      assert !NoKeyMark(vs[..n]) by {
        var j :| 0 <= j < |vs| && IsKeyMark(vs[j]);
        assert vs[..n][j] == vs[j];
      }
      i := LastKeyMark(vs[..n]);
      assert vs[..n][i] == vs[i];
      var tail, before := vs[i + 1..], vs[..n][i + 1..];
      forall j | 0 <= j < |tail|
        ensures !IsKeyMark(tail[j])
      {
        if j < |before| {
          assert tail[j] == before[j];
        }
      }
    }
  }

  /** The attribute pass over a struct is the visits run from a fresh state:
      the key is the last `key` mark on a named field, `auto` is set by any
      `auto` word, and one error is recorded per misused item, in order. */
  lemma ParseAttrsStruct(name: string, fields: seq<Field>)
    ensures var (ctx, attrs) := ParseAttrs(New(), DeriveInput(name, Struct(fields)));
      var vs := Visits(fields);
      && (attrs.key.None? <==> NoKeyMark(vs))
      && (forall i :: 0 <= i < |vs| && IsKeyMark(vs[i]) && NoKeyMark(vs[i + 1..]) ==> attrs.key == vs[i].field.ident)
      && (attrs.auto <==> exists i :: 0 <= i < |vs| && vs[i].item == Word("auto"))
      && ctx.errors == ErrorsOf(vs)
  {
    var vs := Visits(fields);
    HandleFieldsIsRun(New(), DefaultAttrs(), fields);
    RunKey(New(), DefaultAttrs(), vs);
    RunAuto(New(), DefaultAttrs(), vs);
    RunErrors(New(), DefaultAttrs(), vs);
    if !NoKeyMark(vs) {
      var i := LastKeyMark(vs);
    }
  }

  // ---- What the derive expands to ----

  /** The generated `prep`: replace a zero key with `db.get_unique_key()`, or do nothing. */
  datatype Prep = AutoAssign(keyField: string) | NoOp

  /** The generated `impl Sleigh`: `bucket()` is the type name's bytes,
      `key_name()` the key field's name (`key_value()` encodes that field
      with the free `encode_key`), and the selected `prep`. */
  datatype Generated = Generated(typeName: string, bucket: seq<Byte>, keyName: string, prep: Prep)

  /** The token stream the derive produces, or its panic. */
  datatype Expansion =
    | Impl(generated: Generated)
    | CompileErrors(errors: seq<Message>)
    | EmptyCompileError
    | Panic

  /** The `quote!` of the impl for type `name` with key field `key`. */
  function Generate(name: string, key: string, auto: bool): (g: Generated)
    ensures Utf8.Decode(g.bucket) == Some(name)
    ensures g.keyName == key
    ensures g.prep.AutoAssign? <==> auto
    ensures auto ==> g.prep == AutoAssign(key)
  {
    Utf8.DecodeEncode(name);
    Generated(name, Utf8.Encode(name), key, if auto then AutoAssign(key) else NoOp)
  }

  /** `impl_sleigh_macro` as written. Without a key it returns early, so the
      context is dropped unchecked and its guard panics (unless the thread is
      already panicking, when `compile_error!("")` comes out). With a key the
      impl is emitted iff no error was recorded, else every error is. */
  function ImplSleighMacro(input: DeriveInput, threadPanicking: bool): (r: Expansion)
    ensures var (ctx, attrs) := ParseAttrs(New(), input);
      && (r.Impl? <==> attrs.key.Some? && |ctx.errors| == 0)
      && (r.CompileErrors? <==> attrs.key.Some? && |ctx.errors| > 0)
      && (r.CompileErrors? ==> r.errors == ctx.errors)
      && (r.Panic? <==> attrs.key.None? && !threadPanicking)
      && (r.Impl? ==> r.generated.keyName == attrs.key.value && r.generated.typeName == input.ident)
      && (r.Impl? ==> (r.generated.prep.AutoAssign? <==> attrs.auto))
      && (r.Impl? && attrs.auto ==> r.generated.prep == AutoAssign(attrs.key.value))
  {
    var (ctx, attrs) := ParseAttrs(New(), input);
    match attrs.key
    case None =>
      if Drop(ctx, threadPanicking) == Panics then Panic else EmptyCompileError
    case Some(key) =>
      var gen := Generate(input.ident, key, attrs.auto);
      match Check(ctx).0
      case Pass => Impl(gen)
      case Fail(errors) => CompileErrors(errors)
  }

  /** The expansion of a struct, stated on its fields: the impl comes out iff
      some named field is marked `key` and no item is misused; it names the
      last marked field and auto-assigns iff some item is `auto`. With no key
      mark the derive panics (outside an unwinding thread), even when misuse
      errors were recorded; with a key mark and misuse, exactly the misuse
      errors come out, in order. */
  lemma ExpansionOfStruct(name: string, fields: seq<Field>, threadPanicking: bool)
    ensures var r := ImplSleighMacro(DeriveInput(name, Struct(fields)), threadPanicking);
      var vs := Visits(fields);
      && (r.Impl? <==> !NoKeyMark(vs) && forall i :: 0 <= i < |vs| ==> ItemError(vs[i].field, vs[i].item).None?)
      && (r.Panic? <==> NoKeyMark(vs) && !threadPanicking)
      && (r.CompileErrors? ==> r.errors == ErrorsOf(vs))
      && (r.Impl? ==> Utf8.Decode(r.generated.bucket) == Some(name))
      && (r.Impl? ==> exists i :: 0 <= i < |vs| && IsKeyMark(vs[i]) && NoKeyMark(vs[i + 1..]) &&
                               Some(r.generated.keyName) == vs[i].field.ident)
      && (r.Impl? ==> (r.generated.prep.AutoAssign? <==> exists i :: 0 <= i < |vs| && vs[i].item == Word("auto")))
  {
    var vs := Visits(fields);
    ParseAttrsStruct(name, fields);
    ErrorsOfEmpty(vs);
    if !NoKeyMark(vs) {
      var i := LastKeyMark(vs);
    }
  }

  /** Deriving on an enum or union records the "only supported on structs"
      error, but with no key found the derive then panics instead of
      reporting it. */
  lemma ExpansionOfNonStruct(name: string, threadPanicking: bool)
    ensures ImplSleighMacro(DeriveInput(name, NotStruct), threadPanicking) ==
      if threadPanicking then EmptyCompileError else Panic
  {
  }

  /** `TestRecord`: a `u64` field `key` marked `#[sleigh(key, auto)]` and an
      unmarked `String` field `name`. */
  function TestRecord(): DeriveInput {
    DeriveInput("TestRecord", Struct([
      Field(Some("key"), TypePath(["u64"]), [Attribute(["sleigh"], MetaList([Word("key"), Word("auto")]))]),
      Field(Some("name"), TypePath(["String"]), [])]))
  }

  /** `TestStringRecord`: a `String` field `key` marked `#[sleigh(key)]`. */
  function TestStringRecord(): DeriveInput {
    DeriveInput("TestStringRecord", Struct([
      Field(Some("key"), TypePath(["String"]), [Attribute(["sleigh"], MetaList([Word("key")]))]),
      Field(Some("name"), TypePath(["String"]), [])]))
  }

  /** `TestRecord` derives cleanly: its bucket is the type name, its key
      name is `key`, and its `prep` assigns a key when the record has none. */
  lemma TestRecordExpansion(threadPanicking: bool)
    ensures var r := ImplSleighMacro(TestRecord(), threadPanicking);
      && r.Impl? && r.generated.keyName == "key" && r.generated.prep == AutoAssign("key")
      && Utf8.Decode(r.generated.bucket) == Some("TestRecord")
  {
    var f := TestRecord().data.fields;
    var (c1, a1) := HandleMetaItem(New(), DefaultAttrs(), f[0], Word("key"));
    var (c2, a2) := HandleMetaItem(c1, a1, f[0], Word("auto"));
    assert c2 == New() && a2 == Attrs(Some("key"), true);
    assert HandleItems(New(), DefaultAttrs(), f[0], [Word("key"), Word("auto")]) == (c2, a2);
    assert HandleAttributes(New(), DefaultAttrs(), f[0], f[0].attrs) == (c2, a2);
    assert HandleFields(c2, a2, f[1..]) == (c2, a2);
  }

  /** `TestStringRecord` derives cleanly, with a `prep` that does nothing. */
  lemma TestStringRecordExpansion(threadPanicking: bool)
    ensures var r := ImplSleighMacro(TestStringRecord(), threadPanicking);
      && r.Impl? && r.generated.keyName == "key" && r.generated.prep == NoOp
      && Utf8.Decode(r.generated.bucket) == Some("TestStringRecord")
  {
    var f := TestStringRecord().data.fields;
    var (c1, a1) := HandleMetaItem(New(), DefaultAttrs(), f[0], Word("key"));
    assert c1 == New() && a1 == Attrs(Some("key"), false);
    assert HandleItems(New(), DefaultAttrs(), f[0], [Word("key")]) == (c1, a1);
    assert HandleAttributes(New(), DefaultAttrs(), f[0], f[0].attrs) == (c1, a1);
    assert HandleFields(c1, a1, f[1..]) == (c1, a1);
  }

  // ---- The generated `prep` at run time ----

  /** A `u64` value. */
  type U64 = x: int | 0 <= x < 0x1_0000_0000_0000_0000

  /** What `db.get_unique_key()` returned. It is external to this model:
      nothing is assumed about which identifier it issues. */
  datatype UniqueKey = Issued(id: U64) | Unavailable

  /** The outcome of `prep` on a record's key. */
  datatype PrepOutcome = Prepared(key: U64) | PrepFailed

  /** The generated `prep` on a record whose key is `key`: with `auto` a zero
      key is replaced by the issued identifier (a failure propagates through
      `?`) and a non-zero key is kept; without `auto` it is a no-op. */
  function RunPrep(prep: Prep, key: U64, unique: UniqueKey): (r: PrepOutcome)
    ensures r.PrepFailed? <==> prep.AutoAssign? && key == 0 && unique.Unavailable?
    ensures r.Prepared? && r.key != key ==> prep.AutoAssign? && key == 0 && r.key == unique.id
    ensures r.Prepared? && key != 0 ==> r.key == key
    ensures prep.AutoAssign? && key == 0 && unique.Issued? ==> r == Prepared(unique.id)
    ensures prep.NoOp? ==> r == Prepared(key)
  {
    match prep
    case NoOp => Prepared(key)
    case AutoAssign(_) =>
      if key == 0 then
        match unique
        case Issued(id) => Prepared(id)
        case Unavailable => PrepFailed
      else Prepared(key)
  }

  /** Once `prep` has produced a non-zero key, running it again changes
      nothing, whatever the identifier source does. */
  lemma PrepIdempotent(prep: Prep, key: U64, first: UniqueKey, second: UniqueKey)
    requires RunPrep(prep, key, first).Prepared? && RunPrep(prep, key, first).key != 0
    ensures RunPrep(prep, RunPrep(prep, key, first).key, second) == RunPrep(prep, key, first)
  {
  }

  // ---- Corrected expansion ----

  /** `impl_sleigh_macro` with the context checked on every path: without a
      key it reports the recorded errors (or `compile_error!("")` when there
      are none) instead of panicking; with a key it behaves as written. */
  function ImplSleighMacroChecked(input: DeriveInput): (r: Expansion)
    ensures r != Panic
    ensures input.data.NotStruct? ==> r == CompileErrors([NotAStruct])
    ensures ParseAttrs(New(), input).1.key.Some? ==>
      r == ImplSleighMacro(input, false) && r == ImplSleighMacro(input, true)
    ensures var ctx := ParseAttrs(New(), input).0;
      && (r.CompileErrors? <==> |ctx.errors| > 0)
      && (r.CompileErrors? ==> r.errors == ctx.errors)
    ensures r.Impl? ==> ParseAttrs(New(), input).1.key.Some?
    ensures var (ctx, attrs) := ParseAttrs(New(), input);
      attrs.key.None? ==> r == if |ctx.errors| == 0 then EmptyCompileError else CompileErrors(ctx.errors)
  {
    var (ctx, attrs) := ParseAttrs(New(), input);
    var (result, checked) := Check(ctx);
    match attrs.key
    case None =>
      (match result
       case Pass => EmptyCompileError
       case Fail(errors) => CompileErrors(errors))
    case Some(key) =>
      match result
      case Pass => Impl(Generate(input.ident, key, attrs.auto))
      case Fail(errors) => CompileErrors(errors)
  }

  /** The corrected expansion never panics: its context is always checked. */
  lemma CheckedExpansionDropsQuietly(input: DeriveInput, threadPanicking: bool)
    ensures Drop(Check(ParseAttrs(New(), input).0).1, threadPanicking) == Quiet
  {
  }

  /** As written, a struct without any `#[sleigh(key)]` field, or an enum,
      makes the derive panic ("forgot to check for errors") outside an
      unwinding thread, instead of producing a compile error. */
  lemma MissingKeyPanics()
    ensures ImplSleighMacro(DeriveInput("Widget", Struct([Field(Some("id"), TypePath(["u64"]), [])])), false) == Panic
    ensures ImplSleighMacro(DeriveInput("Widget", NotStruct), false) == Panic
    ensures ImplSleighMacroChecked(DeriveInput("Widget", NotStruct)) == CompileErrors([NotAStruct])
  {
    var fields := [Field(Some("id"), TypePath(["u64"]), [])];
    assert Visits(fields) == [];
    ParseAttrsStruct("Widget", fields);
  }
}
