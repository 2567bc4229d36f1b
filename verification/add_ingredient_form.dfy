/** The add-to-inventory form: resolving which ingredient the entry is for
    (an existing one, or a new one created on the spot) and handing the
    entry to the page's submit callback. The form state is an immutable
    record; the reply of the ingredient creation is a parameter. */
module AddIngredientForm {
  import opened JsValues
  import opened Entities

  /** The form's state hooks. */
  datatype Form = Form(
    catalogue: seq<Ingredient>,
    selected: Id,
    newName: string,
    quantity: real,
    unit: string,
    expiryDate: string,
    loading: bool,
    showNew: bool)

  /** What the submit handler does outside the form: create an ingredient,
      then hand an entry to the `onSubmit` callback. */
  datatype FormCall =
    | CreateIngredient(ingredient: NewIngredient)
    | Submit(payload: InventoryPayload)

  datatype FormStep = FormStep(calls: seq<FormCall>, form: Form)

  /** The handler takes the new-ingredient branch. */
  predicate CreatesNew(f: Form) {
    f.showNew && Truthy(Trim(f.newName))
  }

  /** The ingredient the new-ingredient branch creates. */
  function NewEntry(f: Form): NewIngredient {
    NewIngredient(Trim(f.newName), "other")
  }

  /** The id the entry is for: the first created row's id in the
      new-ingredient branch (None when the reply has no row, where reading
      it throws), the selection otherwise. */
  function ResolvedId(f: Form, created: Option<seq<Ingredient>>): Option<Id> {
    if CreatesNew(f) then
      match created
      case Some(rows) => if rows != [] then Some(rows[0].id) else None
      case None => None
    else
      Some(f.selected)
  }

  /** The object handed to `onSubmit` for an ingredient id; it carries no
      `user_id`, and an empty expiry date becomes null. */
  function Entry(f: Form, ingredientId: Id): InventoryPayload {
    InventoryPayload(ingredientId, f.quantity, Trim(f.unit),
                     if Truthy(f.expiryDate) then Some(f.expiryDate) else None, None)
  }

  /** The entry the step handed to `onSubmit`, if it handed one on. */
  function Handed(s: FormStep): Option<InventoryPayload> {
    if |s.calls| > 0 && s.calls[|s.calls| - 1].Submit? then Some(s.calls[|s.calls| - 1].payload) else None
  }

  /** `handleSubmit`. The new-ingredient branch first creates the trimmed
      name with category "other". The entry is handed on exactly when the
      resolved id is truthy, with the quantity, the trimmed unit and the
      expiry date or null; a reply without a created row throws and is
      caught, so nothing is handed on. Whatever happens, `loading` ends
      false and nothing else in the form changes. */
  function HandleSubmit(f: Form, created: Option<seq<Ingredient>>): (s: FormStep)
    ensures s.form == f.(loading := false)
    ensures CreatesNew(f) <==> |s.calls| > 0 && s.calls[0].CreateIngredient?
    ensures CreatesNew(f) ==> s.calls[0] == CreateIngredient(NewEntry(f))
    ensures forall i :: 0 < i < |s.calls| ==> s.calls[i].Submit?
    ensures |s.calls| == (if CreatesNew(f) then 1 else 0) + (if Handed(s).Some? then 1 else 0)
    ensures Handed(s).Some? <==> ResolvedId(f, created).Some? && Truthy(ResolvedId(f, created).value)
    ensures CreatesNew(f) ==> (ResolvedId(f, created).Some? <==> created.Some? && created.value != [])
    ensures Handed(s).Some? ==>
              var p := Handed(s).value;
              && Truthy(p.ingredientId)
              && p.ingredientId == ResolvedId(f, created).value
              && p.quantity == f.quantity
              && p.unit == Trim(f.unit)
              && (p.expiryDate.None? <==> f.expiryDate == "")
              && (p.expiryDate.Some? ==> p.expiryDate.value == f.expiryDate)
              && p.userId.None?
  {
    var after := f.(loading := false);
    if CreatesNew(f) then
      var creation := CreateIngredient(NewEntry(f));
      if created.Some? && created.value != [] && Truthy(created.value[0].id) then
        FormStep([creation, Submit(Entry(f, created.value[0].id))], after)
      else
        FormStep([creation], after)
    else if Truthy(f.selected) then
      FormStep([Submit(Entry(f, f.selected))], after)
    else
      FormStep([], after)
  }
}

/** The form and the inventory page together: what reaches the store when
    an entry is added through the form. */
module AddToInventory {
  import opened JsValues
  import opened Entities
  import AddIngredientForm
  import InventoryPage

  /** An entry handed on by the form and inserted by the page carries the
      signed-in user's id, the id the form resolved, the form's quantity,
      its trimmed unit and its expiry date (null when left empty). */
  lemma InsertedRowCarriesFormEntry(f: AddIngredientForm.Form, created: Option<seq<Ingredient>>,
                                    page: InventoryPage.Page, insertError: Option<StoreError>,
                                    fetched: Option<seq<InventoryItem>>)
    requires page.user.Some?
    requires !AddIngredientForm.CreatesNew(f) && Truthy(f.selected)
    ensures var handed := AddIngredientForm.Handed(AddIngredientForm.HandleSubmit(f, created));
            && handed.Some?
            && InventoryPage.HandleAddIngredient(page, handed.value, insertError, fetched).calls[0] ==
               InventoryPage.InsertInventory(
                InventoryPayload(f.selected, f.quantity, Trim(f.unit),
                                 if f.expiryDate == "" then None else Some(f.expiryDate),
                                 Some(page.user.value.id)))
  {
    var p := AddIngredientForm.Handed(AddIngredientForm.HandleSubmit(f, created)).value;
    var insert := InventoryPage.HandleAddIngredient(page, p, insertError, fetched).calls[0];
    assert insert.payload.(userId := p.userId) == p;
  }
}
