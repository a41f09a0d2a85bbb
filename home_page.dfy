/**
 * The selection rules of the home page: the date shown first, the store
 * list offered for the chosen prefecture, and the check that drops a
 * remembered shop that does not belong to that list.
 */
module HomePage {
  import opened Wrappers
  import LocalTime

  datatype Store = Store(id: string, name: string)

  /** JavaScript truthiness of an optional string: `null` and `""` are falsy. */
  predicate Truthy(s: Option<string>)
  {
    s.Some? && s.value != ""
  }

  /**
   * `getDefaultDate`: before 18:00 the night of interest is the one that
   * began yesterday evening. `now` is the wall clock, passed in.
   */
  function DefaultDate(now: int): (date: int)
    ensures date == now || date == now - 86400
    ensures LocalTime.Hour(date) == LocalTime.Hour(now) && LocalTime.Minute(date) == LocalTime.Minute(now)
  {
    var hour := LocalTime.Hour(now);
    if hour < 18 then LocalTime.AddDays(now, -1) else now
  }

  /**
   * The default date is the day whose 18:00 is the latest one not after
   * `now`: its evening has begun, and the following day's has not.
   */
  lemma DefaultDateEvening(now: int)
    ensures var evening := LocalTime.SetHours(DefaultDate(now), 18, 0);
      evening <= now < evening + 86400
    ensures LocalTime.Hour(now) < 18 ==> LocalTime.DayStart(DefaultDate(now)) == LocalTime.DayStart(now) - 86400
    ensures LocalTime.Hour(now) >= 18 ==> LocalTime.DayStart(DefaultDate(now)) == LocalTime.DayStart(now)
  {
    LocalTime.ClockOf(now);
  }

  /** The `stores` memo: the prefecture's store list, or none without a prefecture. */
  function Stores(prefecture: Option<string>, storesByPrefecture: string -> seq<Store>): (stores: seq<Store>)
    ensures !Truthy(prefecture) ==> stores == []
    ensures Truthy(prefecture) ==> stores == storesByPrefecture(prefecture.value)
  {
    if Truthy(prefecture) then storesByPrefecture(prefecture.value) else []
  }

  /** `stores.some(store => store.id === shop)`. */
  predicate HasStore(stores: seq<Store>, id: string)
  {
    exists k :: 0 <= k < |stores| && stores[k].id == id
  }

  /** A selection the page accepts: no shop, or a shop of the chosen prefecture's list. */
  predicate Consistent(shop: Option<string>, prefecture: Option<string>, stores: seq<Store>)
  {
    !Truthy(shop) || (Truthy(prefecture) && HasStore(stores, shop.value))
  }

  /** `validateShop`: the shop selection after the effect has run (`setShop(null)` gives `None`). */
  function ValidateShop(shop: Option<string>, prefecture: Option<string>, stores: seq<Store>): (r: Option<string>)
    ensures r == shop || r == None
    ensures Consistent(r, prefecture, stores)
    ensures r == shop <==> Consistent(shop, prefecture, stores)
  {
    if !Truthy(shop) then shop
    else if !Truthy(prefecture) then None
    else if !HasStore(stores, shop.value) then None
    else shop
  }

  /** The four branches of `validateShop`, one by one. */
  lemma ValidateShopCases(shop: Option<string>, prefecture: Option<string>, stores: seq<Store>)
    ensures !Truthy(shop) ==> ValidateShop(shop, prefecture, stores) == shop
    ensures Truthy(shop) && !Truthy(prefecture) ==> ValidateShop(shop, prefecture, stores) == None
    ensures Truthy(shop) && Truthy(prefecture) && !HasStore(stores, shop.value) ==>
      ValidateShop(shop, prefecture, stores) == None
    ensures Truthy(shop) && Truthy(prefecture) && HasStore(stores, shop.value) ==>
      ValidateShop(shop, prefecture, stores) == shop
  {
  }

  /** Running the effect again on its own result changes nothing. */
  lemma ValidateShopIdempotent(shop: Option<string>, prefecture: Option<string>, stores: seq<Store>)
    ensures var once := ValidateShop(shop, prefecture, stores);
      ValidateShop(once, prefecture, stores) == once
  {
  }

  /**
   * On the page the list is the memo's: once the prefecture is cleared, any
   * selected shop is cleared too.
   */
  lemma ClearedPrefectureClearsShop(shop: Option<string>, storesByPrefecture: string -> seq<Store>)
    ensures !Truthy(ValidateShop(shop, None, Stores(None, storesByPrefecture)))
    ensures !Truthy(ValidateShop(shop, Some(""), Stores(Some(""), storesByPrefecture)))
  {
  }
}
