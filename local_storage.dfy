/** The browser's key/value store as the game uses it. Values are stored as
    JSON text by the game; here each value is its decoded form. */
module BrowserStorage {
  import opened Wrappers
  import opened GameTypes

  /** A decoded stored value: a play timestamp (milliseconds), a daily
      statistics record, or other text. Any text that `new Date` parses to a
      valid time is represented as `PlayedAt`, so `Other` text never reads
      as a date. */
  datatype Entry = PlayedAt(time: int) | StatsRecord(stats: DailyStats) | Other(text: string)

  class LocalStorage {
    var items: map<string, Entry>

    constructor (initial: map<string, Entry>)
      ensures items == initial
    {
      items := initial;
    }

    /** `getItem`: the stored value, or nothing for a missing key. */
    function GetItem(key: string): (v: Option<Entry>)
      reads this
      ensures v.Some? <==> key in items
      ensures v.Some? ==> v.value == items[key]
    {
      if key in items then Some(items[key]) else None
    }

    /** `Object.keys(localStorage)`. */
    function Keys(): (keys: set<string>)
      reads this
      ensures forall k :: k in keys <==> k in items
    {
      items.Keys
    }

    /** `setItem`: overwrite or create one entry. */
    method SetItem(key: string, value: Entry)
      modifies this
      ensures items == old(items)[key := value]
    {
      items := items[key := value];
    }

    /** `removeItem`: delete one entry; a missing key is left missing. */
    method RemoveItem(key: string)
      modifies this
      ensures items == old(items) - {key}
    {
      items := items - {key};
    }
  }
}
