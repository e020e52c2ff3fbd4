/**
 * The in-memory discount repository: a dictionary from id to discount object
 * and a secondary index from code to id, both updated in place.  `save`
 * stores a deep copy of what it is given; `get_by_id` and `get_by_code` hand
 * back the stored object itself.
 */
module MemoryDiscountRepository {
  import opened Wrappers
  import opened Discounts

  /** Whether `save` indexes a code: Python's truth test on `str | None`. */
  predicate IsIndexed(code: Option<string>)
    ensures IsIndexed(code) <==> code != None && code != Some("")
  {
    code.Some? && code.value != ""
  }

  class InMemoryDiscountRepository {
    var discounts: map<Id, Discount>
    var codeIndex: map<string, Id>

    /** The field values handed to `save`, oldest first. */
    ghost var saveLog: seq<DiscountRecord>

    /** Every discount is stored under its own id. */
    ghost predicate Valid()
      reads this
    {
      forall k :: k in discounts ==> discounts[k].id == k
    }

    /** The field values of the stored discounts. */
    ghost function Contents(): map<Id, DiscountRecord>
      reads this, discounts.Values
    {
      map k | k in discounts :: discounts[k].Record()
    }

    constructor ()
      ensures Valid()
      ensures discounts == map[] && codeIndex == map[] && saveLog == []
    {
      discounts, codeIndex, saveLog := map[], map[], [];
    }

    /** `get_by_id`: the stored object itself, or None. */
    function GetById(id: Id): (r: Option<Discount>)
      reads this
      ensures r.Some? <==> id in discounts
      ensures r.Some? ==> r.value == discounts[id]
    {
      if id in discounts then Some(discounts[id]) else None
    }

    /** `get_by_code`: None for a code not in the index; otherwise whatever is stored under the indexed id, which may be nothing. */
    function GetByCode(code: string): (r: Option<Discount>)
      reads this
      ensures code !in codeIndex ==> r == None
      ensures code in codeIndex ==> r == GetById(codeIndex[code])
    {
      if code in codeIndex then GetById(codeIndex[code]) else None
    }

    /**
     * `save`: stores a deep copy under the discount's id and returns that
     * copy; a non-empty code is pointed at the id.  No other entry and no
     * other code key changes, stale ones included.
     */
    method Save(d: Discount) returns (saved: Discount)
      requires Valid()
      modifies this
      ensures Valid()
      ensures fresh(saved) && saved.Record() == d.Record()
      ensures discounts == old(discounts)[d.id := saved]
      ensures Contents() == old(Contents())[d.id := d.Record()]
      ensures codeIndex == if IsIndexed(d.code) then old(codeIndex)[d.code.value := d.id] else old(codeIndex)
      ensures saveLog == old(saveLog) + [d.Record()]
    {
      saved := new Discount(d.Record());
      discounts := discounts[saved.id := saved];
      if IsIndexed(saved.code) {
        codeIndex := codeIndex[saved.code.value := saved.id];
      }
      saveLog := saveLog + [saved.Record()];
    }

    /**
     * `delete`: an absent id changes nothing; otherwise the entry goes, and
     * so does the key of the deleted discount's code, whichever id that key
     * maps to by now.
     */
    method Delete(id: Id)
      requires Valid()
      modifies this
      ensures Valid()
      ensures id !in old(discounts) ==> discounts == old(discounts) && codeIndex == old(codeIndex)
      ensures id in old(discounts) ==> discounts == old(discounts) - {id}
      ensures id in old(discounts) ==>
                codeIndex == if IsIndexed(old(discounts)[id].code)
                             then old(codeIndex) - {old(discounts)[id].code.value}
                             else old(codeIndex)
      ensures Contents() == old(Contents()) - {id}
      ensures saveLog == old(saveLog)
    {
      if id in discounts {
        var discount := discounts[id];
        if IsIndexed(discount.code) && discount.code.value in codeIndex {
          codeIndex := codeIndex - {discount.code.value};
        }
        discounts := discounts - {id};
      }
    }
  }

  // ---------------------------------------------------------------------------
  // What callers can observe
  // ---------------------------------------------------------------------------

  /** Changing the object handed to `save` afterwards does not reach the store. */
  method CallerChangesDoNotReachStore(repository: InMemoryDiscountRepository, d: Discount)
    requires repository.Valid()
    modifies repository, d
    ensures repository.Valid()
    ensures d.Record() == Used(old(d.Record()))
    ensures d.id in repository.Contents() && repository.Contents()[d.id] == old(d.Record())
  {
    var saved := repository.Save(d);
    d.Use();
  }

  /** Changing the object `get_by_id` returns changes the store at once, before any `save`. */
  method LookupAliasesStore(repository: InMemoryDiscountRepository, id: Id)
    requires repository.Valid() && id in repository.discounts
    modifies repository.discounts[id]
    ensures repository.Contents() == old(repository.Contents())[id := Used(old(repository.Contents())[id])]
  {
    var found := repository.GetById(id);
    found.value.Use();
  }

  /**
   * Two discounts saved with one code: the index follows the last save, and
   * deleting the first one removes the key that now names the second, so the
   * code no longer finds either.
   */
  method DeleteDropsAnotherDiscountsCodeKey(repository: InMemoryDiscountRepository, a: Discount, b: Discount)
    requires repository.Valid()
    requires a.id != b.id && a.code == b.code && IsIndexed(a.code)
    modifies repository
    ensures b.id in repository.discounts
    ensures repository.GetByCode(a.code.value) == None
  {
    var savedA := repository.Save(a);
    var savedB := repository.Save(b);
    assert repository.codeIndex[a.code.value] == b.id;
    repository.Delete(a.id);
  }

  /** Re-saving a discount under a new code leaves the old code key in the index, still naming it. */
  method SaveKeepsStaleCodeKey(repository: InMemoryDiscountRepository, d: Discount, renamed: Discount)
    requires repository.Valid()
    requires renamed.id == d.id && IsIndexed(d.code) && IsIndexed(renamed.code) && renamed.code != d.code
    modifies repository
    ensures repository.GetByCode(d.code.value).Some?
    ensures repository.GetByCode(d.code.value).value.Record() == renamed.Record()
  {
    var first := repository.Save(d);
    var second := repository.Save(renamed);
  }
}
