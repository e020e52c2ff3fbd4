/**
 * The shopping cart entity: a record whose item list grows in place.  The
 * fields of a cart item are not part of this model; an item is known only by
 * its identity here.
 */
module Carts {
  import opened Wrappers
  import opened Discounts

  /** A cart item, known only by its identity. */
  datatype CartItem = CartItem(key: nat)

  class Cart {
    var id: Id
    var userId: Option<Id>
    var items: seq<CartItem>
    var discounts: seq<Discount>
    var createdAt: Time
    var updatedAt: Time
    var sessionId: Option<string>

    /**
     * A new cart: no user, no items, no discounts, no session.  Each timestamp
     * is its own clock reading, as each default takes its own `now()`.
     */
    constructor (id: Id, createdAt: Time, updatedAt: Time)
      ensures this.id == id && userId == None && items == [] && discounts == []
      ensures this.createdAt == createdAt && this.updatedAt == updatedAt && sessionId == None
    {
      this.id, userId, items, discounts := id, None, [], [];
      this.createdAt, this.updatedAt, sessionId := createdAt, updatedAt, None;
    }

    /**
     * `add_item`: the item is appended at the end, whether or not an equal
     * item is already there, and no other field changes (`updated_at`
     * included).
     */
    method AddItem(item: CartItem)
      modifies this
      ensures items == old(items) + [item]
      ensures id == old(id) && userId == old(userId) && discounts == old(discounts)
      ensures createdAt == old(createdAt) && updatedAt == old(updatedAt) && sessionId == old(sessionId)
    {
      items := items + [item];
    }
  }

  /** Adding the same item twice keeps two entries, each in the order added, after what was there. */
  method AddingTwiceKeepsBoth(cart: Cart, item: CartItem)
    modifies cart
    ensures |cart.items| == |old(cart.items)| + 2
    ensures cart.items[..|old(cart.items)|] == old(cart.items)
    ensures cart.items[|old(cart.items)|] == item && cart.items[|old(cart.items)| + 1] == item
  {
    cart.AddItem(item);
    cart.AddItem(item);
  }
}
