/** The `EnumToArrayStr` derive macro: for an enum it generates
    `to_array_str()`, the array of its variants' display names, each taken
    from a `#[rename_variant = "..."]` attribute when present. Syntax trees
    are given as abstract data. */
module EnumDerive {
  import opened Wrappers

  datatype Lit = StrLit(value: string) | OtherLit
  datatype Expr = LitExpr(lit: Lit) | OtherExpr

  /** The three attribute forms: `#[p]`, `#[p(...)]` and `#[p = value]`. */
  datatype Meta = PathMeta | ListMeta | NameValue(value: Expr)

  /** An attribute with its path as segments: `rename_variant` is
      `["rename_variant"]`. */
  datatype Attribute = Attribute(path: seq<string>, meta: Meta)

  datatype Variant = Variant(ident: string, attrs: seq<Attribute>)
  datatype Data = Enum(variants: seq<Variant>) | Struct | Union

  const RENAME: string := "rename_variant"

  /** `attr.path().is_ident("rename_variant")` */
  predicate IsRename(a: Attribute) {
    a.path == [RENAME]
  }

  /** The string an attribute names when it is `rename_variant = "..."`. */
  function RenameOf(a: Attribute): (r: Option<string>)
    ensures r.Some? <==> IsRename(a) && a.meta.NameValue? && a.meta.value.LitExpr? && a.meta.value.lit.StrLit?
    ensures r.Some? ==> r.value == a.meta.value.lit.value
  {
    if IsRename(a) then
      match a.meta
      case NameValue(LitExpr(StrLit(z))) => Some(z)
      case _ => None
    else None
  }

  /** `get_rename_value`: the first `rename_variant` attribute whose value is
      a string literal; other forms of the attribute are skipped. */
  function GetRenameValue(attrs: seq<Attribute>): (r: Option<string>)
    ensures r.None? <==> forall i :: 0 <= i < |attrs| ==> RenameOf(attrs[i]).None?
    ensures r.Some? ==> exists i :: 0 <= i < |attrs| && RenameOf(attrs[i]) == r
                          && forall j :: 0 <= j < i ==> RenameOf(attrs[j]).None?
    decreases |attrs|
  {
    if |attrs| == 0 then None
    else if RenameOf(attrs[0]).Some? then RenameOf(attrs[0])
    else
      var r := GetRenameValue(attrs[1..]);
      assert forall i :: 1 <= i < |attrs| ==> attrs[i] == attrs[1..][i - 1];
      assert r.Some? ==> exists i :: 0 <= i < |attrs| && RenameOf(attrs[i]) == r
                          && forall j :: 0 <= j < i ==> RenameOf(attrs[j]).None? by {
        if r.Some? {
          var i :| 0 <= i < |attrs[1..]| && RenameOf(attrs[1..][i]) == r
                   && forall j :: 0 <= j < i ==> RenameOf(attrs[1..][j]).None?;
          assert RenameOf(attrs[i + 1]) == r;
          forall j | 0 <= j < i + 1 ensures RenameOf(attrs[j]).None? {
            if j > 0 { assert attrs[j] == attrs[1..][j - 1]; }
          }
        }
      }
      r
  }

  /** The name a variant is shown by. */
  function VariantName(v: Variant): (name: string)
    ensures GetRenameValue(v.attrs).Some? ==> name == GetRenameValue(v.attrs).value
    ensures GetRenameValue(v.attrs).None? ==> name == v.ident
  {
    GetRenameValue(v.attrs).GetOr(v.ident)
  }

  /** What the macro emits: `impl Name { fn to_array_str() -> [&str; count] }`. */
  datatype Expansion = Expansion(typeName: string, count: nat, names: seq<string>)

  /** `enum_variants_derive`; `None` where the macro panics on a struct or
      union. */
  function Derive(typeName: string, data: Data): (r: Option<Expansion>)
    ensures r.None? <==> !data.Enum?
    ensures r.Some? ==> r.value.typeName == typeName && r.value.count == |data.variants| == |r.value.names|
    ensures r.Some? ==> forall i :: 0 <= i < |data.variants| ==> r.value.names[i] == VariantName(data.variants[i])
  {
    match data
    case Enum(vs) => Some(Expansion(typeName, |vs|, seq(|vs|, i requires 0 <= i < |vs| => VariantName(vs[i]))))
    case _ => None
  }

  /** Attributes other than a string-valued `rename_variant` in front of the
      list never change the chosen name. */
  lemma {:induction false} SkippedAttributes(skipped: seq<Attribute>, attrs: seq<Attribute>)
    requires forall i :: 0 <= i < |skipped| ==> RenameOf(skipped[i]).None?
    ensures GetRenameValue(skipped + attrs) == GetRenameValue(attrs)
    decreases |skipped|
  {
    if |skipped| > 0 {
      assert (skipped + attrs)[1..] == skipped[1..] + attrs;
      SkippedAttributes(skipped[1..], attrs);
    } else {
      assert skipped + attrs == attrs;
    }
  }

  /** Of two string-valued `rename_variant` attributes, the first wins. */
  lemma FirstRenameWins(a: string, b: string, attrs: seq<Attribute>)
    ensures GetRenameValue([Attribute([RENAME], NameValue(LitExpr(StrLit(a)))),
                            Attribute([RENAME], NameValue(LitExpr(StrLit(b))))] + attrs) == Some(a)
  {
  }
}
