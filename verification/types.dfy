/**
 * The shape of an inventory item (src/lib/types.ts, src/lib/validations.ts).
 *
 * One record type, `Record<E>`, carries the item's fields; `E` is how the
 * expiry date is represented: a `Date` in the application, the date's text
 * encoding in a stored document.
 */
module Types {
  import opened Wrappers

  /** Milliseconds in one day. Calendar days are modelled as fixed-length days. */
  const DAY_MS: int := 86_400_000

  /** A JavaScript `Date`: a valid instant in milliseconds since the epoch, or the Invalid Date. */
  datatype Date = At(ms: int) | InvalidDate

  /** date-fns `isBefore(d, t)`: the Invalid Date compares false with every instant. */
  predicate IsBefore(d: Date, t: int) {
    d.At? && d.ms < t
  }

  /** date-fns `isPast(d)` with the clock reading `now`. */
  predicate IsPast(d: Date, now: int) {
    IsBefore(d, now)
  }

  /** The three recurring-purchase cycles. */
  datatype Cycle = Daily | Weekly | Monthly

  /** The enum string zod accepts for each cycle. */
  function CycleName(c: Cycle): string {
    match c
    case Daily => "daily"
    case Weekly => "weekly"
    case Monthly => "monthly"
  }

  /** The item's fields other than `id`; `customName` is kept because the form's spread keeps it. */
  datatype Record<E> = Record(
    name: string,
    customName: Option<string>,
    quantity: int,
    expiryDate: Option<E>,
    lowStockThreshold: int,
    isRecurring: bool,
    recurringCycle: Option<Cycle>,
    barcode: Option<string>)

  /** The validated item fields as the application holds them. */
  type ItemData = Record<Date>

  /** The item fields as written to and read from the document store. */
  type StoredData = Record<string>

  /** An item of the published inventory: the store's document id plus the fields. */
  datatype InventoryItem = InventoryItem(id: string, data: ItemData)

  /** A document of a collection snapshot. */
  datatype StoredDoc = StoredDoc(id: string, data: StoredData)

  /** The same record with its expiry replaced by `e`; every other field is carried over. */
  function WithExpiry<E, F>(r: Record<E>, e: Option<F>): (r': Record<F>)
    ensures r'.expiryDate == e
    ensures r'.name == r.name && r'.customName == r.customName && r'.quantity == r.quantity
    ensures r'.lowStockThreshold == r.lowStockThreshold && r'.isRecurring == r.isRecurring
    ensures r'.recurringCycle == r.recurringCycle && r'.barcode == r.barcode
  {
    Record(r.name, r.customName, r.quantity, e, r.lowStockThreshold, r.isRecurring, r.recurringCycle, r.barcode)
  }
}
