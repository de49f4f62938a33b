/** The group form content of the system admin page: a list of items that
    grows at the end and renders as their concatenation, and the form
    field that carries the editor's identity. */
module SystemAdminHtmx {
  import opened Strings

  class GroupContent {
    var items: seq<string>

    /** `new`: no items. */
    constructor ()
      ensures items == []
    {
      items := [];
    }

    /** `add`: one item more, at the end. */
    method Add(item: string)
      modifies this
      ensures items == old(items) + [item]
    {
      items := items + [item];
    }

    /** `render`: the items in order with nothing between them. */
    method Render() returns (content: string)
      ensures content == Flatten(items)
    {
      content := "";
      for i := 0 to |items|
        invariant content == Flatten(items[..i])
      {
        RenderPieces(items, i);
        content := content + items[i];
      }
      assert items[..|items|] == items;
    }
  }

  /** What a render gives for each item: it starts where the earlier items
      end and is the item itself. */
  lemma RenderPieces(items: seq<string>, k: nat)
    requires k < |items|
    ensures Flatten(items[..k + 1]) == Flatten(items[..k]) + items[k]
  {
    FlattenAppend(items[..k], [items[k]]);
    assert items[..k + 1] == items[..k] + [items[k]];
    assert Flatten([items[k]]) == items[k] + Flatten([]);
  }

  const FIELD_HEAD: string := "<input type='text' id='last_updated_by' name='last_updated_by' class='form-control' value='"
  const FIELD_TAIL: string := "' readonly>"

  /** The read-only `last_updated_by` input of `get_group_content`, which
      carries the subject as its value. */
  function LastUpdatedByField(subject: string): (html: string)
    ensures StartsWith(html, FIELD_HEAD) && EndsWith(html, FIELD_TAIL)
    ensures |html| == |FIELD_HEAD| + |subject| + |FIELD_TAIL|
  {
    FIELD_HEAD + subject + FIELD_TAIL
  }

  /** The subject can be read back from the field. */
  lemma FieldValue(subject: string)
    ensures var html := LastUpdatedByField(subject);
      html[|FIELD_HEAD|..|html| - |FIELD_TAIL|] == subject
  {
    var html := LastUpdatedByField(subject);
    assert html == FIELD_HEAD + subject + FIELD_TAIL;
  }
}
