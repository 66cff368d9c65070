/** frontend/src/pages/CustomerOrderPage.tsx: the customer's basket (a list
    of item ids with quantities), its estimated weight, and when the order
    form may be sent. State updates build new lists, as React state does. */
module CustomerOrderPage {
  import opened Common

  /** A catalogue entry, as far as the page reads it. */
  datatype CatalogItem = CatalogItem(id: int, weightPerUnitKg: real)

  /** One entry of `selectedItems`. */
  datatype Selection = Selection(itemId: int, quantity: int)

  /** The form fields, as typed; `pending` is the request in flight. */
  datatype Form = Form(phone: string, lat: string, lng: string, offer: string, selected: seq<Selection>)

  predicate HasItem(selected: seq<Selection>, id: int)
  {
    exists k :: 0 <= k < |selected| && selected[k].itemId == id
  }

  ghost predicate UniqueIds(selected: seq<Selection>)
  {
    forall a, b :: 0 <= a < b < |selected| ==> selected[a].itemId != selected[b].itemId
  }

  /** `items.find(i => i.id === id)`: the first catalogue entry with that id. */
  function FindItem(items: seq<CatalogItem>, id: int): (r: Option<CatalogItem>)
    ensures r.Some? ==> r.value in items && r.value.id == id
    ensures r.None? ==> forall k :: 0 <= k < |items| ==> items[k].id != id
  {
    if items == [] then None
    else if items[0].id == id then Some(items[0])
    else FindItem(items[1..], id)
  }

  /** The weight one basket entry adds: nothing for an id the catalogue lacks. */
  function EntryWeight(items: seq<CatalogItem>): Selection -> real
  {
    (s: Selection) =>
      var found := FindItem(items, s.itemId);
      if found.None? then 0.0 else found.value.weightPerUnitKg * s.quantity as real
  }

  /** `totalWeight`: 0 while the catalogue is not loaded. */
  function TotalWeight(items: Option<seq<CatalogItem>>, selected: seq<Selection>): real
  {
    if items.None? then 0.0 else Sum(selected, EntryWeight(items.value))
  }

  /** `addItem`: append the id with quantity 1, unless it is already there. */
  function AddItem(prev: seq<Selection>, id: int): (r: seq<Selection>)
    ensures HasItem(r, id)
  {
    if HasItem(prev, id) then prev
    else
      assert (prev + [Selection(id, 1)])[|prev|].itemId == id;
      prev + [Selection(id, 1)]
  }

  /** `updateQty`: the matching entries get `max(1, qty)`. */
  function UpdateQty(prev: seq<Selection>, id: int, qty: int): (r: seq<Selection>)
    ensures |r| == |prev|
  {
    Map(prev, (p: Selection) => if p.itemId == id then p.(quantity := if qty > 1 then qty else 1) else p)
  }

  /** The entries of `prev` whose id differs from `id`, as a 0/1 mask. */
  function OtherIds(prev: seq<Selection>, id: int): (mask: seq<bool>)
    ensures |mask| == |prev| && forall k :: 0 <= k < |prev| ==> (mask[k] <==> prev[k].itemId != id)
  {
    Map(prev, (p: Selection) => p.itemId != id)
  }

  /** `removeItem`: drop the entries with that id, keep the rest in order. */
  function RemoveItem(prev: seq<Selection>, id: int): (r: seq<Selection>)
    ensures !HasItem(r, id)
    ensures forall p :: p in r <==> p in prev && p.itemId != id
    ensures r == Select(prev, OtherIds(prev, id))
  {
    if prev == [] then []
    else
      var last := prev[|prev| - 1];
      assert prev == prev[..|prev| - 1] + [last];
      assert OtherIds(prev, id)[..|prev| - 1] == OtherIds(prev[..|prev| - 1], id);
      var rest := RemoveItem(prev[..|prev| - 1], id);
      var r := rest + (if last.itemId != id then [last] else []);
      assert forall k :: 0 <= k < |r| ==> r[k] in r;
      r
  }

  /** The send button's `disabled`. */
  function SubmitDisabled(f: Form, pending: bool): bool
  {
    f.phone == "" || f.lat == "" || f.lng == "" || f.offer == "" || f.selected == [] || pending
  }

  /** The form after a successful order. */
  const EmptyForm: Form := Form("", "", "", "", [])

  lemma AddItemProperties(prev: seq<Selection>, id: int)
    ensures AddItem(AddItem(prev, id), id) == AddItem(prev, id)
    ensures UniqueIds(prev) ==> UniqueIds(AddItem(prev, id))
    ensures HasItem(prev, id) ==> AddItem(prev, id) == prev
    ensures !HasItem(prev, id) ==> AddItem(prev, id) == prev + [Selection(id, 1)]
  {
    if !HasItem(prev, id) {
      var r := prev + [Selection(id, 1)];
      forall a, b | 0 <= a < b < |r| && UniqueIds(prev) ensures r[a].itemId != r[b].itemId {
        if b == |prev| {
          assert r[a] == prev[a];
        }
      }
    }
  }

  /** Quantities never drop below 1, and only the chosen entries change. */
  lemma UpdateQtyProperties(prev: seq<Selection>, id: int, qty: int)
    ensures forall k :: 0 <= k < |prev| && prev[k].itemId != id ==> UpdateQty(prev, id, qty)[k] == prev[k]
    ensures forall k :: 0 <= k < |prev| && prev[k].itemId == id ==>
              UpdateQty(prev, id, qty)[k] == prev[k].(quantity := if qty >= 1 then qty else 1)
    ensures forall k :: 0 <= k < |prev| ==> UpdateQty(prev, id, qty)[k].itemId == prev[k].itemId
  {
  }

  /** Adding a new id and removing it again gives the basket back. */
  lemma {:induction false} RemoveUndoesAdd(prev: seq<Selection>, id: int)
    requires !HasItem(prev, id)
    ensures RemoveItem(AddItem(prev, id), id) == prev
  {
    RemoveAbsent(prev, id);
    var r := prev + [Selection(id, 1)];
    assert r[..|r| - 1] == prev;
  }

  lemma RemoveAbsent(prev: seq<Selection>, id: int)
    requires !HasItem(prev, id)
    ensures RemoveItem(prev, id) == prev
  {
    SelectAll(prev, OtherIds(prev, id));
  }

  /** Ids the catalogue lacks add no weight; a known item added with
      quantity 1 adds its unit weight. */
  lemma AddItemWeight(items: seq<CatalogItem>, prev: seq<Selection>, id: int)
    requires !HasItem(prev, id)
    ensures FindItem(items, id).None? ==> TotalWeight(Some(items), AddItem(prev, id)) == TotalWeight(Some(items), prev)
    ensures FindItem(items, id).Some? ==>
              TotalWeight(Some(items), AddItem(prev, id)) == TotalWeight(Some(items), prev) + FindItem(items, id).value.weightPerUnitKg
  {
    var r := prev + [Selection(id, 1)];
    assert r[..|r| - 1] == prev;
  }

  /** After a successful order the form is empty and cannot be sent again
      until an item is chosen. */
  lemma ResetBlocksSubmit(pending: bool)
    ensures SubmitDisabled(EmptyForm, pending)
    ensures forall items :: TotalWeight(items, EmptyForm.selected) == 0.0
  {
  }
}
