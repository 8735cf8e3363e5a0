/**
 * The table of downloadable freebies and the lookup that falls back to the
 * default one.
 */
module Freebies {
  import opened Wrappers
  import opened JsObject

  datatype Freebie = Freebie(title: string, description: string, image: string, kitFormId: string, kitFormUrlId: string)

  const DefaultFreebieId := "web-dev-roadmap"

  /** The `freebies` record: its own properties. */
  const Table: map<string, Freebie> := map[
    "web-dev-roadmap" := Freebie(
      "Web Dev Roadmap",
      "260+ videos, 60+ articles, 120+ projects.\nThe only roadmap you need to become a full-stack web developer.",
      "/freebies/web-dev-roadmap.avif", "2006456", "2b29f37c99"),
    "ts-util-cheat-sheet" := Freebie(
      "TypeScript Utility Types Cheat Sheet",
      "Master 18 must know built in TS utility types!",
      "/freebies/ts-util-cheat-sheet.avif", "8664388", "2d52cd1172"),
    "accessibility-checklist" := Freebie(
      "Accessibility Checklist",
      "80+ items, 12+ categories.\nEnsure your website is accessible to all users with this comprehensive checklist.",
      "/freebies/accessibility-checklist.avif", "9019792", "a485fd2bc3")
  ]

  lemma DefaultIsKey()
    ensures DefaultFreebieId in Table
    ensures |Table| == 3
  {
    assert Table.Keys == {"web-dev-roadmap", "ts-util-cheat-sheet", "accessibility-checklist"};
  }

  /** `id || DEFAULT_FREEBIE_ID`: an absent or empty id means the default one. */
  function FreebieId(id: Option<string>): (key: string)
    ensures id.None? || id.value == "" ==> key == DefaultFreebieId
    ensures id.Some? && id.value != "" ==> key == id.value
  {
    if id.Some? && id.value != "" then id.value else DefaultFreebieId
  }

  /**
   * `getFreebie`, reading only the table's own entries: the entry of a known id,
   * and the default entry for an absent, empty or unknown one. The result is
   * always an entry of the table.
   */
  function GetFreebie(id: Option<string>): (f: Freebie)
    ensures f in Table.Values
    ensures id.None? || id.value == "" ==> f == Table[DefaultFreebieId]
    ensures id.Some? && id.value in Table ==> f == Table[id.value]
    ensures id.Some? && id.value !in Table ==> f == Table[DefaultFreebieId]
  {
    DefaultIsKey();
    var key := FreebieId(id);
    if key in Table then Table[key] else Table[DefaultFreebieId]
  }

  // ---------------------------------------------------------------------------
  // The lookup as written: `freebies[freebieId]` on a plain object
  // ---------------------------------------------------------------------------

  /** What a property read `freebies[key]` yields. */
  datatype PropertyValue = OwnEntry(freebie: Freebie) | Inherited(name: string) | Missing

  function PropertyRead(key: string): (v: PropertyValue)
    ensures v.OwnEntry? <==> key in Table
    ensures v.OwnEntry? ==> v.freebie == Table[key]
    ensures v.Missing? <==> key !in Table && key !in PrototypeMembers
  {
    if key in Table then OwnEntry(Table[key])
    else if key in PrototypeMembers then Inherited(key)
    else Missing
  }

  /** Only a missing property is falsy. */
  predicate IsTruthy(v: PropertyValue) {
    !v.Missing?
  }

  /** `freebies[freebieId] || freebies[DEFAULT_FREEBIE_ID]`, as the code reads it. */
  function GetFreebieAsWritten(id: Option<string>): PropertyValue {
    var v := PropertyRead(FreebieId(id));
    if IsTruthy(v) then v else PropertyRead(DefaultFreebieId)
  }

  /** An id naming an inherited member, such as "constructor", yields that member and no freebie. */
  lemma AsWrittenReturnsInheritedMember()
    ensures GetFreebieAsWritten(Some("constructor")) == Inherited("constructor")
    ensures !GetFreebieAsWritten(Some("constructor")).OwnEntry?
    ensures GetFreebie(Some("constructor")) == Table[DefaultFreebieId]
  {
    assert "constructor" !in Table;
    assert "constructor" in PrototypeMembers;
  }

  /** For every id that is not an inherited member's name, the code as written gives the same freebie. */
  lemma AsWrittenAgreesElsewhere(id: Option<string>)
    requires id.None? || id.value !in PrototypeMembers
    ensures GetFreebieAsWritten(id) == OwnEntry(GetFreebie(id))
  {
    DefaultIsKey();
    assert DefaultFreebieId !in PrototypeMembers;
  }
}
