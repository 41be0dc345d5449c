/** The fixed category table of app.js:23-43 and `getCategory`
    (app.js:165-168), which resolves a record's `type` and category id to
    the name and icon shown for it. */
module Categories {
  import opened Wrappers
  import opened Records

  datatype Category = Category(id: string, name: string, icon: string)

  /** What a lookup yields: the name and icon, the only fields its callers read. */
  datatype Label = Label(name: string, icon: string)

  const IncomeCategories: seq<Category> := [
    Category("salary", "工资", "💼"),
    Category("bonus", "奖金", "🎁"),
    Category("investment", "理财", "📈"),
    Category("parttime", "兼职", "💪"),
    Category("gift", "礼金", "🧧"),
    Category("refund", "退款", "↩️"),
    Category("other", "其他", "💰")
  ]

  const ExpenseCategories: seq<Category> := [
    Category("food", "餐饮", "🍔"),
    Category("transport", "交通", "🚗"),
    Category("shopping", "购物", "🛍️"),
    Category("entertainment", "娱乐", "🎮"),
    Category("medical", "医疗", "💊"),
    Category("education", "教育", "📚"),
    Category("housing", "住房", "🏠"),
    Category("other", "其他", "💸")
  ]

  /** The placeholder shown for an unknown type or id. */
  const Unknown: Label := Label("未知", "❓")

  /** `categories[type] || []`: the list for a type name, empty for any other name. */
  function CategoriesOf(typeName: string): seq<Category>
  {
    if typeName == "income" then IncomeCategories
    else if typeName == "expense" then ExpenseCategories
    else []
  }

  /** No two entries of a list share an id. */
  predicate DistinctIds(list: seq<Category>)
  {
    forall i, j :: 0 <= i < j < |list| ==> list[i].id != list[j].id
  }

  /** `list.find(c => c.id === id)`: the first entry with that id. */
  function Find(list: seq<Category>, id: string): (r: Option<Category>)
    ensures r.None? <==> forall i :: 0 <= i < |list| ==> list[i].id != id
    ensures r.Some? ==> exists i :: 0 <= i < |list| && list[i] == r.value && r.value.id == id
                                   && forall j :: 0 <= j < i ==> list[j].id != id
  {
    if list == [] then None
    else if list[0].id == id then Some(list[0])
    else
      var r := Find(list[1..], id);
      assert forall i :: 0 < i < |list| ==> list[i] == list[1..][i - 1];
      r
  }

  /** `getCategory(type, categoryId)`. */
  function GetCategory(typeName: string, id: string): (r: Label)
    ensures r == Unknown
         || exists c :: c in CategoriesOf(typeName) && c.id == id && r == Label(c.name, c.icon)
  {
    match Find(CategoriesOf(typeName), id)
    case Some(c) => Label(c.name, c.icon)
    case None => Unknown
  }

  /** Both lists, and so every list, have distinct ids. */
  lemma TablesHaveDistinctIds(typeName: string)
    ensures DistinctIds(CategoriesOf(typeName))
  {
  }

  /** Looking up an entry of the table by its own id yields that entry. */
  lemma GetCategoryFinds(typeName: string, c: Category)
    requires c in CategoriesOf(typeName)
    ensures GetCategory(typeName, c.id) == Label(c.name, c.icon)
  {
    TablesHaveDistinctIds(typeName);
    var list := CategoriesOf(typeName);
    var k :| 0 <= k < |list| && list[k] == c;
    var f := Find(list, c.id);
    var i :| 0 <= i < |list| && list[i] == f.value && f.value.id == c.id
             && forall j :: 0 <= j < i ==> list[j].id != c.id;
    assert i == k;
  }

  /** An id that the type's list lacks, or a type that is neither
      `'income'` nor `'expense'`, yields the placeholder. */
  lemma GetCategoryFallback(typeName: string, id: string)
    requires forall c :: c in CategoriesOf(typeName) ==> c.id != id
    ensures GetCategory(typeName, id) == Unknown
  {
    var list := CategoriesOf(typeName);
    assert forall i :: 0 <= i < |list| ==> list[i] in list;
  }

  /** Each type has an `'other'` category. */
  lemma OtherIsKnown(k: Kind)
    ensures GetCategory(KindName(k), "other") != Unknown
  {
    var list := CategoriesOf(KindName(k));
    var other := list[|list| - 1];
    assert other.id == "other";
    GetCategoryFinds(KindName(k), other);
  }
}
