/** The inventory page's handlers: adding an inventory item for the signed-in
    user and adjusting an item's quantity with the -1 / +1 buttons. The
    component state is an immutable record passed in and returned; each
    handler also returns the store calls it issues, and takes as parameters
    the replies the store gives to them. */
module InventoryPage {
  import opened JsValues
  import opened Entities

  /** The page's state hooks. */
  datatype Page = Page(
    user: Option<User>,
    inventory: seq<InventoryItem>,
    loading: bool,
    showAddForm: bool)

  /** A store call issued by the page. */
  datatype Call =
    | FetchInventory(userId: Id)
    | UpdateQuantity(inventoryId: Id, quantity: real)
    | InsertInventory(payload: InventoryPayload)

  /** The calls a handler issued, in order, and the state it leaves. */
  datatype Step = Step(calls: seq<Call>, page: Page)

  /** The step reloads the inventory. */
  predicate Reloads(s: Step) {
    exists c :: c in s.calls && c.FetchInventory?
  }

  /** `loadInventory`: with a signed-in user, fetch that user's inventory
      and show its data (an empty list when the reply has none). */
  function LoadInventory(page: Page, fetched: Option<seq<InventoryItem>>): (s: Step)
    ensures page.user.None? ==> s == Step([], page)
    ensures page.user.Some? ==> s.calls == [FetchInventory(page.user.value.id)]
    ensures page.user.Some? ==> s.page.inventory == fetched.GetOr([])
    ensures s.page.(inventory := page.inventory) == page
  {
    match page.user
    case None => Step([], page)
    case Some(u) => Step([FetchInventory(u.id)], page.(inventory := fetched.GetOr([])))
  }

  /** `handleUpdateQuantity(inventoryId, newQuantity)`. A quantity at or
      below zero is a no-op (no call, no change; the item is not deleted).
      Otherwise exactly one update is issued, for that item and carrying
      exactly that quantity, and it is followed by a reload of the signed-in
      user's inventory only when the update reports no error (and a user is
      signed in); no other call is made. Nothing but the inventory list
      changes. */
  function HandleUpdateQuantity(page: Page, inventoryId: Id, newQuantity: real,
                                updateError: Option<StoreError>,
                                fetched: Option<seq<InventoryItem>>): (s: Step)
    ensures newQuantity <= 0.0 ==> s == Step([], page)
    ensures newQuantity > 0.0 ==> |s.calls| > 0 && s.calls[0] == UpdateQuantity(inventoryId, newQuantity)
    ensures forall i :: 0 < i < |s.calls| ==> !s.calls[i].UpdateQuantity?
    ensures Reloads(s) <==> newQuantity > 0.0 && updateError.None? && page.user.Some?
    ensures Reloads(s) ==>
              s.calls == [UpdateQuantity(inventoryId, newQuantity), FetchInventory(page.user.value.id)]
    ensures newQuantity > 0.0 && !Reloads(s) ==> s.calls == [UpdateQuantity(inventoryId, newQuantity)]
    ensures Reloads(s) ==> s.page.inventory == fetched.GetOr([])
    ensures !Reloads(s) ==> s.page == page
    ensures s.page.(inventory := page.inventory) == page
  {
    if newQuantity <= 0.0 then
      Step([], page)
    else
      var update := [UpdateQuantity(inventoryId, newQuantity)];
      if updateError.None? then
        var load := LoadInventory(page, fetched);
        var s := Step(update + load.calls, load.page);
        assert page.user.Some? ==> s.calls[1] in s.calls;
        s
      else
        Step(update, page)
  }

  /** The "-" button: requests `item.quantity - 1`. It issues a call exactly
      when the item's quantity is above 1; at 1 or below nothing happens. */
  function DecrementClicked(page: Page, item: InventoryItem, updateError: Option<StoreError>,
                            fetched: Option<seq<InventoryItem>>): (s: Step)
    ensures s.calls == [] <==> item.quantity <= 1.0
    ensures item.quantity <= 1.0 ==> s.page == page
    ensures item.quantity > 1.0 ==> s.calls[0] == UpdateQuantity(item.id, item.quantity - 1.0)
  {
    HandleUpdateQuantity(page, item.id, item.quantity - 1.0, updateError, fetched)
  }

  /** The "+" button: requests `item.quantity + 1`. For any item whose
      quantity is above -1 (in particular every positive one) it issues the
      update. */
  function IncrementClicked(page: Page, item: InventoryItem, updateError: Option<StoreError>,
                            fetched: Option<seq<InventoryItem>>): (s: Step)
    ensures item.quantity > -1.0 ==> s.calls != [] && s.calls[0] == UpdateQuantity(item.id, item.quantity + 1.0)
    ensures item.quantity <= -1.0 ==> s == Step([], page)
  {
    HandleUpdateQuantity(page, item.id, item.quantity + 1.0, updateError, fetched)
  }

  /** `handleAddIngredient(ingredientData)`. Without a user nothing
      happens. Otherwise the insert carries the form data with `user_id` set
      to the current user's id, replacing any supplied value; only when the
      insert reports no error is it followed by a reload of that user's
      inventory, and the form closed. No other call is made, and nothing
      else in the state changes. */
  function HandleAddIngredient(page: Page, data: InventoryPayload, insertError: Option<StoreError>,
                               fetched: Option<seq<InventoryItem>>): (s: Step)
    ensures page.user.None? ==> s == Step([], page)
    ensures page.user.Some? ==> |s.calls| > 0 && s.calls[0].InsertInventory?
    ensures page.user.Some? ==>
              var p := s.calls[0].payload;
              && p.userId == Some(page.user.value.id)
              && p.(userId := data.userId) == data
    ensures forall i :: 0 < i < |s.calls| ==> !s.calls[i].InsertInventory?
    ensures Reloads(s) <==> page.user.Some? && insertError.None?
    ensures Reloads(s) ==>
              s.calls == [InsertInventory(data.(userId := Some(page.user.value.id))),
                          FetchInventory(page.user.value.id)]
    ensures page.user.Some? && !Reloads(s) ==>
              s.calls == [InsertInventory(data.(userId := Some(page.user.value.id)))]
    ensures Reloads(s) ==> s.page == page.(inventory := fetched.GetOr([]), showAddForm := false)
    ensures !Reloads(s) ==> s.page == page
  {
    match page.user
    case None => Step([], page)
    case Some(u) =>
      var insert := [InsertInventory(data.(userId := Some(u.id)))];
      if insertError.None? then
        var load := LoadInventory(page, fetched);
        var s := Step(insert + load.calls, load.page.(showAddForm := false));
        assert s.calls[1] in s.calls;
        s
      else
        Step(insert, page)
  }
}
