/**
 * The rows the backend keeps in its database, and the database itself as one
 * object whose tables are maps from the internal (primary-key) id to the row.
 *
 * Every handler of the model receives the `Session`, reads the maps it needs
 * and reassigns the ones it changes; a query is a filter over a map.
 */
module Store {
  import opened Common
  import opened Geometry

  /** `RestaurantDB`, reduced to what the modelled operations read: the
      reservation length (in minutes) and the plan precision. */
  datatype Restaurant = Restaurant(name: string, lengthMinutes: int, precision: int)

  /** `RestaurantTableDB`: a plan table and the restaurant it belongs to. */
  datatype TableRow = TableRow(restaurant: int, table: Table)

  /** `RestaurantBorderDB`. */
  datatype BorderRow = BorderRow(restaurant: int, border: Border)

  /** `ReservationStatus`. */
  datatype Status = Pending | Accepted | Rejected

  /** One line of a reservation's order: how many, the item's name when it was
      ordered or last edited, and the line's total price in grosze. */
  datatype OrderLine = OrderLine(count: int, name: string, totalPrice: int)

  /** `ReservationDB`; the order is keyed by the menu item's id. */
  datatype Reservation = Reservation(
    user: Option<int>,
    restaurant: int,
    table: Option<int>,
    date: int,
    status: Status,
    guests: int,
    order: map<int, OrderLine>,
    details: string,
    needService: bool)

  /** `RestaurantMenuCategoryDB`. */
  datatype Category = Category(restaurant: int, name: string, order: int, visible: bool)

  /** `RestaurantMenuItemType`. */
  datatype ItemStatus = Inactive | Unavailable | Available

  /** `RestaurantMenuItemDB`; the price is in grosze. */
  datatype Item = Item(
    category: Option<int>,
    name: string,
    order: int,
    description: string,
    price: int,
    status: ItemStatus,
    photo: string)

  /** A time of day, in minutes after midnight. */
  type Clock = m: int | 0 <= m < MinutesPerDay

  /** `RestaurantHoursDB`: the opening hours of one weekday (Monday is 0). */
  datatype Hours = Hours(
    restaurant: int,
    day: int,
    open: Option<Clock>,
    close: Option<Clock>,
    temporary: bool,
    closed: bool)

  /** `RestaurantFlagDB`. */
  datatype Flag = Flag(name: string, description: string)

  /** `RestaurantSettingsDB`: a restaurant's value of one flag. */
  datatype Setting = Setting(restaurant: int, flag: int, on: bool)

  /** `AccountStatus`. */
  datatype AccountStatus = Active | Disabled | Deleted | Blocked

  /** `UserType`. */
  datatype UserType = Customer | Owner | Staff

  /** `UserDB`; a social-login account has no password. */
  datatype User = User(email: string, firstName: string, password: Option<string>, status: AccountStatus, kind: UserType)

  /** `WorkerDB`: waiters and owners. */
  datatype Worker = Worker(
    email: string,
    firstName: string,
    surname: string,
    password: string,
    status: AccountStatus,
    restaurant: int,
    kind: UserType)

  /** The database. */
  class Session {
    var restaurants: map<int, Restaurant>
    var tables: map<int, TableRow>
    var borders: map<int, BorderRow>
    var reservations: map<int, Reservation>
    var categories: map<int, Category>
    var items: map<int, Item>
    var hours: map<int, Hours>
    var flags: map<int, Flag>
    var settings: map<int, Setting>
    var users: map<int, User>
    var workers: map<int, Worker>

    /** An empty database. */
    constructor ()
      ensures restaurants == map[] && tables == map[] && borders == map[]
      ensures reservations == map[] && categories == map[] && items == map[]
      ensures hours == map[] && flags == map[] && settings == map[]
      ensures users == map[] && workers == map[]
    {
      restaurants := map[];
      tables := map[];
      borders := map[];
      reservations := map[];
      categories := map[];
      items := map[];
      hours := map[];
      flags := map[];
      settings := map[];
      users := map[];
      workers := map[];
    }
  }

  /** The instant a reservation ends, with the restaurant's reservation length. */
  function EndOf(r: Reservation, lengthMinutes: int): int
  {
    r.date + lengthMinutes
  }

  /** The number of seats around a table. */
  function Seats(t: Table): int
  {
    t.seatsBottom + t.seatsLeft + t.seatsRight + t.seatsTop
  }
}
