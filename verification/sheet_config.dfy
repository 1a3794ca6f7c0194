/**
 * The list of configured sheets: the default entry (`s2p_default_sheet`) and the normalisation
 * applied when the settings form is saved (`s2p_save_sheets`, without the `update_option` write).
 */
module SheetConfig {
  import opened Options
  import opened PhpText
  import opened WordPress

  const DefaultTemplate: string := "<h2>{{title}}</h2>\n<p>{{content}}</p>"

  /** One saved sheet. */
  datatype Sheet = Sheet(name: string, sheetUrl: string, mode: string, template: string, postType: string)

  /** A submitted or stored sheet entry as an array: each key may be absent (`!isset`). */
  datatype RawSheet = RawSheet(
    name: Option<string>,
    sheetUrl: Option<string>,
    mode: Option<string>,
    template: Option<string>,
    postType: Option<string>
  )

  /** An element of the submitted list: an array of fields, or some other value. */
  datatype RawItem = NotFields | Fields(fields: RawSheet)

  /** The submitted value: not an array at all, or a list of elements. */
  datatype RawInput = NotArray | Items(items: seq<RawItem>)

  /** What every saved entry satisfies. */
  predicate ValidSheet(s: Sheet) {
    && (s.mode == "simple" || s.mode == "developer")
    && s.name != "" && s.template != "" && s.postType != ""
  }

  /** `s2p_default_sheet`. */
  function DefaultSheet(): (s: Sheet)
    ensures ValidSheet(s)
  {
    Sheet("Sheet 1", "", "simple", DefaultTemplate, "post")
  }

  /** The array elements of the list, in order; other elements are skipped. */
  function ArrayItems(items: seq<RawItem>): (r: seq<RawSheet>)
    ensures |r| <= |items|
    decreases |items|
  {
    if |items| == 0 then []
    else
      var last := items[|items| - 1];
      ArrayItems(items[..|items| - 1]) + (if last.Fields? then [last.fields] else [])
  }

  lemma ArrayItemsSnoc(items: seq<RawItem>, i: nat)
    requires i < |items|
    ensures ArrayItems(items[..i + 1]) ==
      ArrayItems(items[..i]) + (if items[i].Fields? then [items[i].fields] else [])
  {
    assert items[..i + 1][..i] == items[..i];
  }

  /**
   * The body of the loop for an entry that lands at 0-based position `position` of the output:
   * sanitised fields, `Sheet n` for a missing or empty name with `n = position + 1`, mode forced
   * into {simple, developer}, the default template for an empty one, `post` for an empty type.
   */
  function NormalizeSheet(s: RawSheet, position: nat, wp: Wp): (r: Sheet)
    ensures ValidSheet(r)
    ensures r.mode == "developer" <==> s.mode.Some? && wp.sanitizeTextField(s.mode.value) == "developer"
    ensures (s.name.None? || wp.sanitizeTextField(s.name.value) == "") ==>
      r.name == "Sheet " + NatToString(position + 1)
    ensures s.name.Some? && wp.sanitizeTextField(s.name.value) != "" ==> r.name == wp.sanitizeTextField(s.name.value)
    ensures s.template.Some? && wp.unslash(s.template.value) != "" ==> r.template == wp.unslash(s.template.value)
    ensures (s.template.None? || wp.unslash(s.template.value) == "") ==> r.template == DefaultTemplate
    ensures s.postType.Some? && wp.sanitizeKey(s.postType.value) != "" ==> r.postType == wp.sanitizeKey(s.postType.value)
    ensures (s.postType.None? || wp.sanitizeKey(s.postType.value) == "") ==> r.postType == "post"
    ensures r.sheetUrl == (if s.sheetUrl.Some? then wp.escUrlRaw(Trim(s.sheetUrl.value)) else "")
  {
    var name := if s.name.Some? then wp.sanitizeTextField(s.name.value) else "";
    var sheetUrl := if s.sheetUrl.Some? then wp.escUrlRaw(Trim(s.sheetUrl.value)) else "";
    var mode := if s.mode.Some? then wp.sanitizeTextField(s.mode.value) else "simple";
    var template := if s.template.Some? then wp.unslash(s.template.value) else "";
    var postType := if s.postType.Some? then wp.sanitizeKey(s.postType.value) else "post";
    Sheet(
      if name == "" then "Sheet " + NatToString(position + 1) else name,
      sheetUrl,
      if mode != "developer" then "simple" else mode,
      if template == "" then DefaultTemplate else template,
      if postType == "" then "post" else postType)
  }

  /**
   * `s2p_save_sheets`: a value that is not an array gives the empty list; otherwise each array
   * element is normalised in order, and when there is none the default sheet is used.
   */
  method SaveSheets(raw: RawInput, wp: Wp) returns (r: seq<Sheet>)
    ensures raw.NotArray? ==> r == []
    ensures raw.Items? ==> |r| >= 1
    ensures raw.Items? && |ArrayItems(raw.items)| == 0 ==> r == [DefaultSheet()]
    ensures raw.Items? && |ArrayItems(raw.items)| > 0 ==>
      |r| == |ArrayItems(raw.items)| &&
      forall j :: 0 <= j < |r| ==> r[j] == NormalizeSheet(ArrayItems(raw.items)[j], j, wp)
    ensures forall j :: 0 <= j < |r| ==> ValidSheet(r[j])
  {
    if raw.NotArray? {
      return [];
    }
    var items := raw.items;
    var out: seq<Sheet> := [];
    var i := 0;
    while i < |items|
      invariant 0 <= i <= |items|
      invariant |out| == |ArrayItems(items[..i])|
      invariant forall j :: 0 <= j < |out| ==> out[j] == NormalizeSheet(ArrayItems(items[..i])[j], j, wp)
    {
      ArrayItemsSnoc(items, i);
      ghost var before := ArrayItems(items[..i]);
      if items[i].Fields? {
        var entry := NormalizeSheet(items[i].fields, |out|, wp);
        ghost var after := before + [items[i].fields];
        assert ArrayItems(items[..i + 1]) == after;
        forall j | 0 <= j < |out| + 1 ensures (out + [entry])[j] == NormalizeSheet(after[j], j, wp) {
          if j < |out| {
            assert after[j] == before[j];
          }
        }
        out := out + [entry];
      } else {
        assert ArrayItems(items[..i + 1]) == before;
      }
      i := i + 1;
    }
    assert items[..i] == items;
    if |out| == 0 {
      out := [DefaultSheet()];
    }
    r := out;
  }
}
