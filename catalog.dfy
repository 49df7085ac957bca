/** Reads of the `items` table (the merch catalog). The engine never writes it. */
module Catalog {
  import opened Models

  /** `ItemRepository.GetItemByName`: the item row with that name, or none
      (a missing row is not an error). */
  function GetItemByName(items: seq<Item>, name: string): (r: Option<Item>)
    ensures r.None? <==> forall k :: 0 <= k < |items| ==> items[k].name != name
    ensures r.Some? ==> r.value in items && r.value.name == name
  {
    if items == [] then None
    else if items[0].name == name then Some(items[0])
    else
      var r := GetItemByName(items[1..], name);
      assert forall k :: 1 <= k < |items| ==> items[k] == items[1..][k - 1];
      r
  }

  /** The name the join `items i ON i.id = inv.item_id` attaches to an item id,
      or none when no catalog row has that id. */
  function NameOf(items: seq<Item>, itemId: int): (r: Option<string>)
    ensures r.None? <==> forall k :: 0 <= k < |items| ==> items[k].id != itemId
    ensures r.Some? ==> exists it :: it in items && it.id == itemId && it.name == r.value
  {
    if items == [] then None
    else if items[0].id == itemId then Some(items[0].name)
    else
      var r := NameOf(items[1..], itemId);
      assert forall k :: 1 <= k < |items| ==> items[k] == items[1..][k - 1];
      r
  }
}
