/** The field builder both admin pages hold (the recruitment form on the
    dashboard and the application form on the event page): a list of fields
    and a draft field, edited one property at a time, appended when its label
    is not blank, and removed by position with `splice(index, 1)`. */
module FormFields {
  import opened Text
  import opened Schema

  /** The draft a builder starts with and returns to after each add. */
  const EmptyDraft := FieldSpec("", "text", false)

  /** Where `Array.prototype.splice(index, 1)` starts on an array of length
      `len`: a negative index counts from the end (clamped at 0), and an index
      past the end is clamped to the length. */
  function SpliceStart(len: nat, index: int): (start: nat)
    ensures start <= len
    ensures 0 <= index <= len ==> start == index
    ensures index > len ==> start == len
    ensures index < 0 && len + index >= 0 ==> start == len + index
    ensures len + index < 0 ==> start == 0
  {
    if index < 0 then (if len + index < 0 then 0 else len + index)
    else if index > len then len
    else index
  }

  /** The array left by `splice(index, 1)`. */
  function SpliceOne<T>(s: seq<T>, index: int): seq<T> {
    var k := SpliceStart(|s|, index);
    if k < |s| then s[..k] + s[k + 1..] else s
  }

  /** Every field of the list has a label that is not blank. */
  predicate AllLabelled(fields: seq<FieldSpec>) {
    forall i | 0 <= i < |fields| :: !Blank(fields[i].labelText)
  }

  class FieldBuilder {
    /** The fields added so far, in order. */
    var fields: seq<FieldSpec>
    /** The field being edited. */
    var draft: FieldSpec

    ghost predicate Valid()
      reads this
    {
      AllLabelled(fields)
    }

    /** Both pages start with no fields and the empty draft. */
    constructor()
      ensures Valid()
      ensures fields == [] && draft == EmptyDraft
    {
      fields := [];
      draft := EmptyDraft;
    }

    /** `setNewField(prev => ({ ...prev, label }))` */
    method SetLabel(text: string)
      modifies this
      ensures draft == old(draft).(labelText := text) && fields == old(fields)
    {
      draft := draft.(labelText := text);
    }

    /** `setNewField(prev => ({ ...prev, type }))` */
    method SetType(fieldType: string)
      modifies this
      ensures draft == old(draft).(fieldType := fieldType) && fields == old(fields)
    {
      draft := draft.(fieldType := fieldType);
    }

    /** `setNewField(prev => ({ ...prev, required }))` */
    method SetRequired(required: bool)
      modifies this
      ensures draft == old(draft).(required := required) && fields == old(fields)
    {
      draft := draft.(required := required);
    }

    /** `handleAddField`: a draft whose label trims to nothing is ignored;
        otherwise a copy of the draft, label untrimmed, goes last and the draft
        is reset. */
    method AddField()
      requires Valid()
      modifies this
      ensures Valid()
      ensures Blank(old(draft).labelText) ==> fields == old(fields) && draft == old(draft)
      ensures !Blank(old(draft).labelText) ==> fields == old(fields) + [old(draft)] && draft == EmptyDraft
    {
      TrimEmptyIffBlank(draft.labelText);
      if Trim(draft.labelText) != "" {
        fields := fields + [draft];
        draft := EmptyDraft;
      }
    }

    /** `handleRemoveField(index)`: copy the list, splice one element out of the
        copy, store the copy. */
    method RemoveField(index: int)
      requires Valid()
      modifies this
      ensures Valid()
      ensures fields == SpliceOne(old(fields), index) && draft == old(draft)
    {
      var updated := fields;
      var k := SpliceStart(|updated|, index);
      if k < |updated| {
        updated := updated[..k] + updated[k + 1..];
      }
      SpliceKeepsElements(fields, index);
      fields := updated;
    }
  }

  // ---------------------------------------------------------------------------
  // Lemmas

  /** An in-range removal deletes exactly the element at `index`: one element
      fewer, the elements before it in place, the ones after it shifted down
      by one, and the removed element the only one missing. */
  lemma SpliceInRange<T>(s: seq<T>, index: int)
    requires 0 <= index < |s|
    ensures |SpliceOne(s, index)| == |s| - 1
    ensures forall j | 0 <= j < index :: SpliceOne(s, index)[j] == s[j]
    ensures forall j | index <= j < |s| - 1 :: SpliceOne(s, index)[j] == s[j + 1]
    ensures multiset(SpliceOne(s, index)) + multiset{s[index]} == multiset(s)
  {
    assert s == s[..index] + [s[index]] + s[index + 1..];
  }

  /** An index at or past the end removes nothing. */
  lemma SplicePastEnd<T>(s: seq<T>, index: int)
    requires index >= |s|
    ensures SpliceOne(s, index) == s
  {
  }

  /** A negative index removes the element that many places from the end, or
      the first element when it reaches past the start. */
  lemma SpliceNegative<T>(s: seq<T>, index: int)
    requires index < 0 && s != []
    ensures SpliceOne(s, index) == SpliceOne(s, if |s| + index < 0 then 0 else |s| + index)
  {
  }

  /** Removal never introduces an element. */
  lemma SpliceKeepsElements<T>(s: seq<T>, index: int)
    ensures forall x | x in SpliceOne(s, index) :: x in s
  {
    var k := SpliceStart(|s|, index);
    if k < |s| {
      assert s == s[..k] + s[k..];
      assert s[k..] == [s[k]] + s[k + 1..];
    }
  }

  /** A non-blank label is never empty, so every built field gives a column
      name that is not empty. */
  lemma LabelledFieldsHaveNames(fields: seq<FieldSpec>)
    requires AllLabelled(fields)
    ensures forall j | 1 <= j < |Columns(fields)| :: |Columns(fields)[j].name| > 0
  {
    forall j | 1 <= j < |Columns(fields)|
      ensures |Columns(fields)[j].name| > 0
    {
      Naming.SlugShape(fields[j - 1].labelText);
    }
  }
}
