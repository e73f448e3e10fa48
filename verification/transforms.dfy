/**
 * The per-token transforms registered with the build library, each as a
 * standalone function of the token it is given: the two `name-transform`
 * registrations, `px-value-transform`, `rem-value-transform` and
 * `value-transform`, with the matchers of `px-value-transform` and
 * `rem-value-transform` (the others have none and always apply).
 */
module Transforms {
  import opened Results
  import opened Strings
  import opened Hex
  import opened Tokens

  /** None of the three structural fragments occurs in `name` */
  ghost predicate FreeOfFragments(name: string) {
    !IsSubstring("mode-1-", name) && !IsSubstring("typography-", name) && !IsSubstring("effects-", name)
  }

  /**
   * The first `name-transform`: remove the first occurrence, wherever it is,
   * of `mode-1-`, then of `typography-`, then of `effects-`.
   */
  function NameTransform(t: Token): (r: string)
    ensures |r| <= |t.name|
    ensures r == t.name <==> FreeOfFragments(t.name)
  {
    var a := ReplaceFirst(t.name, "mode-1-", "");
    var b := ReplaceFirst(a, "typography-", "");
    var c := ReplaceFirst(b, "effects-", "");
    RemovalShortens(t.name, "mode-1-");
    RemovalShortens(a, "typography-");
    RemovalShortens(b, "effects-");
    c
  }

  /** Removing the first occurrence of a non-empty fragment shortens by its length; otherwise nothing changes */
  lemma RemovalShortens(s: string, p: string)
    requires |p| > 0
    ensures IsSubstring(p, s) ==> |ReplaceFirst(s, p, "")| == |s| - |p|
    ensures !IsSubstring(p, s) ==> ReplaceFirst(s, p, "") == s
  {
    if IsSubstring(p, s) {
      var i := IndexOf(s, p).value;
      assert FirstOccurrence(s, p, i);
    }
  }

  /** The second `name-transform` registration leaves the name as it is */
  function KeepName(t: Token): (r: string)
    ensures r == t.name
  {
    t.name
  }

  /** The collection name contains one of the fragments that call for pixels */
  ghost predicate PixelCollection(collection: string) {
    IsSubstring("size", collection) || IsSubstring("breakpoint", collection) ||
    IsSubstring("border", collection) || IsSubstring("space", collection)
  }

  /** The matcher of `px-value-transform` */
  function PxMatcher(t: Token): (r: bool)
    ensures r <==> PixelCollection(t.collection)
  {
    Includes(t.collection, "size") || Includes(t.collection, "breakpoint") ||
    Includes(t.collection, "border") || Includes(t.collection, "space")
  }

  /** `${value}` followed by a unit */
  function WithUnit(v: Value, unit: string): Value {
    Text(Stringify(v) + unit)
  }

  /** `r` is text made of the printed value `v` followed by `unit` */
  ghost predicate Appends(r: Value, v: Value, unit: string) {
    && r.Text?
    && |r.text| == |Stringify(v)| + |unit|
    && r.text[..|Stringify(v)|] == Stringify(v)
    && r.text[|Stringify(v)|..] == unit
  }

  /** The transformer of `px-value-transform`: the value with `px` appended */
  function PxTransform(t: Token): (r: Value)
    ensures Appends(r, t.value, "px")
  {
    WithUnit(t.value, "px")
  }

  /** The matcher of `rem-value-transform` */
  function RemMatcher(t: Token): (r: bool)
    ensures r <==> IsSubstring("typography", t.collection)
  {
    Includes(t.collection, "typography")
  }

  /** The transformer of `rem-value-transform`: `rem` only for font sizes, the value untouched otherwise */
  function RemTransform(t: Token): (r: Value)
    ensures IsSubstring("font-size-", t.name) ==> Appends(r, t.value, "rem")
    ensures !IsSubstring("font-size-", t.name) ==> r == t.value
  {
    if Includes(t.name, "font-size-") then WithUnit(t.value, "rem") else t.value
  }

  /** The collections `value-transform` distinguishes */
  datatype CollectionKind = Semantic | Foundation | Size | Other

  function KindOf(collection: string): CollectionKind {
    match collection
    case "semantic" => Semantic
    case "foundation" => Foundation
    case "size" => Size
    case _ => Other
  }

  /** `value-transform` reads the value as a colour for these collections */
  predicate NeedsColor(t: Token) {
    t.collection == "semantic" || t.collection == "foundation"
  }

  /** How each kind of collection renders its value, one case per kind */
  function RenderByKind(kind: CollectionKind, t: Token): Value
    requires kind == Semantic || kind == Foundation ==> t.value.Color?
  {
    match kind
    case Semantic => Text("var(--" + t.alias + ", " + RgbToHex(t.value.rgb) + ")")
    case Foundation => Text(RgbToHex(t.value.rgb))
    case Size => WithUnit(t.value, "px")
    case Other => t.value
  }

  /**
   * `value-transform`: three independent `if`s on the exact collection name,
   * each overwriting the working value. The value must be a colour where the
   * source hands it to `rgbToHex`.
   */
  function ValueTransform(t: Token): (r: Value)
    requires NeedsColor(t) ==> t.value.Color?
    ensures r == RenderByKind(KindOf(t.collection), t)
    ensures KindOf(t.collection) == Other ==> r == t.value
    ensures t.collection == "size" ==> Appends(r, t.value, "px")
    ensures t.collection == "foundation" && InRange(t.value.rgb) ==>
              r.Text? && IsHexColor(r.text) && ParseHexColor(r.text) == Some(t.value.rgb)
  {
    var v0 := t.value;
    var v1 := if t.collection == "semantic" then Text("var(--" + t.alias + ", " + RgbToHex(t.value.rgb) + ")") else v0;
    var v2 := if t.collection == "foundation" then Text(RgbToHex(t.value.rgb)) else v1;
    var v3 := if t.collection == "size" then Text(Stringify(v2) + "px") else v2;
    v3
  }

  /** A `size` token whose value is 16 renders as `16px` */
  lemma SizeScenario(t: Token)
    requires t.collection == "size" && t.value == Text("16")
    ensures ValueTransform(t) == Text("16px")
  {
  }

  /** The reference text of `SemanticScenario`, kept apart so that the literal concatenation is proved without that lemma's context */
  lemma PrimaryReferenceText()
    ensures "var(--" + "color-primary" + ", " + "#FF0000" + ")" == "var(--color-primary, #FF0000)"
  {
  }

  /** A `semantic` token aliasing `color-primary` with a pure red value renders as a reference with a hex fallback */
  lemma SemanticScenario(t: Token)
    requires t.collection == "semantic" && t.alias == "color-primary" && t.value == Color(Rgb(255, 0, 0))
    ensures ValueTransform(t) == Text("var(--color-primary, #FF0000)")
  {
    var hex := RgbToHex(t.value.rgb);
    RedIsFF0000();
    assert hex == "#FF0000";
    assert ValueTransform(t) == Text("var(--" + t.alias + ", " + hex + ")");
    PrimaryReferenceText();
  }

  /** A fragment inside the name is removed as well as one at its start */
  lemma NameScenario(t: Token)
    requires t.name == "typography-mode-1-h1"
    ensures NameTransform(t) == "h1"
  {
    forall j | 0 <= j < 11
      ensures !OccursAt(t.name, "mode-1-", j)
    {
      assert t.name[j..j + 7][0] == t.name[j] != 'm';
    }
    assert OccursAt(t.name, "mode-1-", 11);
    var a := ReplaceFirst(t.name, "mode-1-", "");
    assert a == "typography-h1";
    assert FirstOccurrence(a, "typography-", 0);
    var b := ReplaceFirst(a, "typography-", "");
    assert b == "h1";
    assert !IsSubstring("effects-", b);
  }
}
