/** The per-request context of an API call: who is calling, and a bag of
    named items created on first use; and the accessor that holds the
    current context. */
module Threading {
  import opened Wrappers

  /** `Obj` stands for the item values; reading an item back at another type
      (a failing cast) is not part of this model. */
  class ApiContext<Obj> {
    /** The item bag, null until the first item is stored. */
    var contextItems: Option<map<string, Obj>>
    var userId: Option<string>
    var userAgent: Option<string>
    var ipAddress: Option<string>
    var client: Option<string>

    /** A context for `userId`, with no items yet. */
    constructor WithUser(userId: Option<string>)
      ensures this.userId == userId
      ensures contextItems == None && userAgent == None && ipAddress == None && client == None
    {
      this.userId := userId;
      contextItems := None;
      userAgent, ipAddress, client := None, None, None;
    }

    /** A context with no user and no items. */
    constructor ()
      ensures userId == None
      ensures contextItems == None && userAgent == None && ipAddress == None && client == None
    {
      userId := None;
      contextItems := None;
      userAgent, ipAddress, client := None, None, None;
    }

    /** The stored items; a bag not yet created holds none. */
    function Items(): map<string, Obj>
      reads this
    {
      contextItems.GetOr(map[])
    }

    /** Stores `value` under `key`, creating the bag if needed; the value
        replaces any earlier one for `key`, other keys keep theirs, and the
        identity fields are untouched. */
    method SetContextItem(key: string, value: Obj)
      modifies this
      ensures contextItems == Some(old(Items())[key := value])
      ensures forall k | k in old(Items()) && k != key :: k in Items() && Items()[k] == old(Items())[k]
      ensures forall dflt: Obj :: TryGetContextItem(key, dflt) == (true, value)
      ensures userId == old(userId) && userAgent == old(userAgent)
      ensures ipAddress == old(ipAddress) && client == old(client)
    {
      if contextItems.None? {
        contextItems := Some(map[]);
      }
      contextItems := Some(contextItems.value[key := value]);
    }

    /** True and the stored value when `key` has an item; false and `dflt`
        (the caller's `default`) when it has none, in particular when no item
        was ever stored. */
    function TryGetContextItem(key: string, dflt: Obj): (r: (bool, Obj))
      reads this
      ensures r.0 <==> contextItems.Some? && key in contextItems.value
      ensures r.0 ==> r.1 == contextItems.value[key]
      ensures !r.0 ==> r.1 == dflt
      ensures contextItems.None? ==> r == (false, dflt)
    {
      if contextItems.Some? && key in contextItems.value then (true, contextItems.value[key]) else (false, dflt)
    }
  }

  /** The holder of the current context, one cell. */
  class ApiContextAccessor<Obj> {
    var current: ApiContext?<Obj>

    constructor ()
      ensures current == null
    {
      current := null;
    }
  }

  /** The current context, installing one first when there is none:
      `created` is what the caller's factory returns, possibly null, or none
      when the caller gives no factory, in which case a fresh empty context
      is made. An existing current context is returned as it is; the answer
      is null only when a factory returned null. */
  method GetOrCreate<Obj>(accessor: ApiContextAccessor<Obj>, created: Option<ApiContext?<Obj>>)
    returns (c: ApiContext?<Obj>)
    modifies accessor
    ensures accessor.current == c
    ensures old(accessor.current) != null ==> c == old(accessor.current)
    ensures old(accessor.current) == null && created.Some? ==> c == created.value
    ensures c == null <==> old(accessor.current) == null && created == Some(null)
    ensures old(accessor.current) == null && created.None? ==>
      fresh(c) && c.contextItems == None && c.userId == None
  {
    if accessor.current == null {
      if created.Some? {
        accessor.current := created.value;
      } else {
        accessor.current := new ApiContext();
      }
    }
    c := accessor.current;
  }
}
