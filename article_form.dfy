/** The selection state of the news-article form: which tag ids and which
    category ids the user has ticked, how a tap toggles one of them, and
    how the selection is seeded from the article being edited. */
module ArticleForm {
  import opened Wrappers
  import opened RelationSet
  import opened Taxonomy

  /** The article being edited, as the form receives it. */
  datatype InitialData = InitialData(id: int, title: string, content: string,
                                     tags: seq<Tag>, categories: seq<Category>)

  /** The form's editable state. */
  datatype Form = Form(title: string, content: string,
                       selectedTagIds: seq<int>, selectedCategoryIds: seq<int>)

  /** The filter predicate `x => x !== id`. */
  function IsNot(id: int): int -> bool {
    x => x != id
  }

  /** `prev.includes(id) ? prev.filter(x => x !== id) : [...prev, id]` */
  function Toggle(selected: seq<int>, id: int): (r: seq<int>)
    ensures id !in selected ==> r == selected + [id]
    ensures id in selected ==> id !in r && multiset(r) == multiset(selected)[id := 0]
  {
    if id in selected then
      FilterOutValue(selected, id, IsNot(id));
      Filter(selected, IsNot(id))
    else selected + [id]
  }

  /** Removing keeps the other ids in their original order: toggling an id
      whose first occurrence follows `before` yields `before` followed by
      what remains of the rest once every later occurrence is gone. */
  lemma ToggleRemoveKeepsOrder(before: seq<int>, id: int, after: seq<int>)
    requires id !in before
    ensures Toggle(before + [id] + after, id) == before + Filter(after, IsNot(id))
  {
    var s := before + [id] + after;
    assert s[|before|] == id;
    FilterAroundFirst(before, id, after);
  }

  lemma FilterAroundFirst(before: seq<int>, id: int, after: seq<int>)
    requires id !in before
    ensures Filter(before + [id] + after, IsNot(id)) == before + Filter(after, IsNot(id))
  {
    var keep := IsNot(id);
    var head := before + [id];
    FilterAppend(head, after, keep);
    FilterAppend(before, [id], keep);
    FilterDropsOnly(id);
    assert forall j :: 0 <= j < |before| ==> keep(before[j]) by {
      forall j | 0 <= j < |before| ensures keep(before[j]) {
        assert before[j] in before;
      }
    }
    FilterKeepsAll(before, keep);
    assert Filter(head, keep) == before;
  }

  lemma FilterDropsOnly(id: int)
    ensures Filter([id], IsNot(id)) == []
  {
  }

  /** Toggling twice restores membership of the id; starting from a
      selection without it, the very same sequence comes back. */
  lemma ToggleTwice(selected: seq<int>, id: int)
    ensures id in Toggle(Toggle(selected, id), id) <==> id in selected
    ensures id !in selected ==> Toggle(Toggle(selected, id), id) == selected
  {
    if id !in selected {
      ToggleRemoveKeepsOrder(selected, id, []);
      assert Filter([], IsNot(id)) == [];
      assert selected + [id] + [] == selected + [id];
    }
  }

  /** A selection without duplicates stays without duplicates. */
  lemma ToggleNoDuplicates(selected: seq<int>, id: int)
    requires NoDuplicates(selected)
    ensures NoDuplicates(Toggle(selected, id))
  {
    if id in selected {
      FilterNoDuplicates(selected, IsNot(id));
    }
  }

  /** `toggleTag`: only the tag selection changes. */
  function ToggleTag(f: Form, tagId: int): (r: Form)
    ensures r.selectedTagIds == Toggle(f.selectedTagIds, tagId)
    ensures r.selectedCategoryIds == f.selectedCategoryIds
    ensures r.title == f.title && r.content == f.content
  {
    f.(selectedTagIds := Toggle(f.selectedTagIds, tagId))
  }

  /** `toggleCategory`: only the category selection changes. */
  function ToggleCategory(f: Form, categoryId: int): (r: Form)
    ensures r.selectedCategoryIds == Toggle(f.selectedCategoryIds, categoryId)
    ensures r.selectedTagIds == f.selectedTagIds
    ensures r.title == f.title && r.content == f.content
  {
    f.(selectedCategoryIds := Toggle(f.selectedCategoryIds, categoryId))
  }

  /** The ids of some tags, in order. */
  function TagIds(tags: seq<Tag>): (r: seq<int>)
    ensures |r| == |tags|
    ensures forall i :: 0 <= i < |tags| ==> r[i] == tags[i].id
  {
    if |tags| == 0 then [] else [tags[0].id] + TagIds(tags[1..])
  }

  /** The ids of some categories, in order. */
  function CategoryIds(categories: seq<Category>): (r: seq<int>)
    ensures |r| == |categories|
    ensures forall i :: 0 <= i < |categories| ==> r[i] == categories[i].id
  {
    if |categories| == 0 then [] else [categories[0].id] + CategoryIds(categories[1..])
  }

  /** The effect run whenever `initialData` changes: copy the edited
      article's fields and selections, or clear everything. */
  function InitialForm(initialData: Option<InitialData>): (r: Form)
    ensures initialData.None? ==> r == Form("", "", [], [])
    ensures initialData.Some? ==>
      r.title == initialData.value.title && r.content == initialData.value.content &&
      |r.selectedTagIds| == |initialData.value.tags| &&
      (forall i :: 0 <= i < |r.selectedTagIds| ==>
        r.selectedTagIds[i] == initialData.value.tags[i].id) &&
      |r.selectedCategoryIds| == |initialData.value.categories| &&
      (forall i :: 0 <= i < |r.selectedCategoryIds| ==>
        r.selectedCategoryIds[i] == initialData.value.categories[i].id)
  {
    match initialData
    case None => Form("", "", [], [])
    case Some(d) => Form(d.title, d.content, TagIds(d.tags), CategoryIds(d.categories))
  }
}
