/**
 * The processing history kept in the browser's storage: the newest ten results, each
 * with its texts cut to a storable length.
 */
module StorageUtils {
  import opened Wrappers
  import ExportUtils

  const HISTORY_KEY: string := "manuscript-editor-history"
  const MAX_HISTORY_ITEMS: nat := 10
  const MAX_TEXT_LENGTH: nat := 5000

  datatype HistoryItem = HistoryItem(id: string, timestamp: int, originalText: string, processedText: string, features: seq<string>)

  /**
   * What storage holds under the history key: nothing, a list that parses, or a value
   * `JSON.parse` rejects.
   */
  datatype Stored = Absent | Parsed(items: seq<HistoryItem>) | Unreadable

  // ---------------------------------------------------------------------------
  // truncateText

  /** `truncateText(text, maxLength)`: short text as it is, long text cut and marked with "...". */
  function TruncateText(text: string, maxLength: nat): (r: string)
    ensures |r| <= maxLength + 3
    ensures |text| <= maxLength ==> r == text
    ensures |text| > maxLength ==> |r| == maxLength + 3 && r[..maxLength] == text[..maxLength] && r[maxLength..] == "..."
  {
    if |text| <= maxLength then text else text[..maxLength] + "..."
  }

  // ---------------------------------------------------------------------------
  // The history list

  /** The list after `unshift(item)` and `slice(0, MAX_HISTORY_ITEMS)`. */
  function Saved(history: seq<HistoryItem>, item: HistoryItem): (r: seq<HistoryItem>)
    ensures |r| == if |history| < MAX_HISTORY_ITEMS then |history| + 1 else MAX_HISTORY_ITEMS
    ensures r[0] == item
    ensures forall i :: 1 <= i < |r| ==> r[i] == history[i - 1]
  {
    var all := [item] + history;
    if |all| <= MAX_HISTORY_ITEMS then all else all[..MAX_HISTORY_ITEMS]
  }

  /** `history.find((item) => item.id === id) || null`. */
  function Find(history: seq<HistoryItem>, id: string): (r: Option<HistoryItem>)
    ensures r.None? <==> forall i :: 0 <= i < |history| ==> history[i].id != id
    ensures r.Some? ==> exists i :: 0 <= i < |history| && history[i] == r.value
                                  && r.value.id == id && forall j :: 0 <= j < i ==> history[j].id != id
  {
    if history == [] then None
    else if history[0].id == id then
      assert history[0] == history[0];
      Some(history[0])
    else
      var r := Find(history[1..], id);
      assert forall i :: 1 <= i < |history| ==> history[1..][i - 1] == history[i];
      if r.Some? then
        var k :| 0 <= k < |history[1..]| && history[1..][k] == r.value && r.value.id == id
                 && forall j :: 0 <= j < k ==> history[1..][j].id != id;
        assert history[k + 1] == r.value;
        r
      else r
  }

  /** `history.filter((item) => item.id !== id)`. */
  function Without(history: seq<HistoryItem>, id: string): (r: seq<HistoryItem>)
    ensures |r| <= |history|
    ensures forall i :: 0 <= i < |r| ==> r[i].id != id
  {
    if history == [] then []
    else (if history[0].id == id then [] else [history[0]]) + Without(history[1..], id)
  }

  /** Filtering works piece by piece, so the kept items stay in their order. */
  lemma {:induction false} WithoutConcat(a: seq<HistoryItem>, b: seq<HistoryItem>, id: string)
    ensures Without(a + b, id) == Without(a, id) + Without(b, id)
  {
    if a == [] {
      assert a + b == b;
    } else {
      assert (a + b)[0] == a[0];
      assert (a + b)[1..] == a[1..] + b;
      WithoutConcat(a[1..], b, id);
    }
  }

  /** Items with another id are all kept: filtering a list without the id changes nothing. */
  lemma {:induction false} WithoutAbsent(history: seq<HistoryItem>, id: string)
    requires forall i :: 0 <= i < |history| ==> history[i].id != id
    ensures Without(history, id) == history
  {
    if history != [] {
      WithoutAbsent(history[1..], id);
    }
  }

  /** Every item with the id goes: what is left is the list with exactly those items dropped. */
  lemma {:induction false} WithoutCount(history: seq<HistoryItem>, id: string)
    ensures |Without(history, id)| == |history| - Matching(history, id)
  {
    if history != [] {
      WithoutCount(history[1..], id);
    }
  }

  /** The number of items with the id. */
  function Matching(history: seq<HistoryItem>, id: string): nat {
    if history == [] then 0 else (if history[0].id == id then 1 else 0) + Matching(history[1..], id)
  }

  // ---------------------------------------------------------------------------
  // The store

  /** Browser storage, as far as the history key is concerned. */
  class HistoryStore {
    var stored: Stored

    constructor ()
      ensures stored == Absent
    {
      stored := Absent;
    }

    /** `getHistory()`: the stored list, or `[]` when there is none or it does not parse. */
    function GetHistory(): (r: seq<HistoryItem>)
      reads this
      ensures stored.Parsed? ==> r == stored.items
      ensures !stored.Parsed? ==> r == []
    {
      match stored
      case Parsed(items) => items
      case _ => []
    }

    /**
     * `saveToHistory(original, processed, features)`: the new item, with fresh id `id` and
     * time `now`, goes first and the list is cut to ten. `writable` is false when storage
     * refuses the write; that error is caught and the stored history stays as it was.
     */
    method SaveToHistory(originalText: string, processedText: string, features: seq<string>,
                         id: string, now: int, writable: bool)
      modifies this
      ensures writable ==> GetHistory() == Saved(old(GetHistory()),
        HistoryItem(id, now, TruncateText(originalText, MAX_TEXT_LENGTH), TruncateText(processedText, MAX_TEXT_LENGTH), features))
      ensures !writable ==> stored == old(stored)
    {
      var history := GetHistory();
      var item := HistoryItem(id, now, TruncateText(originalText, MAX_TEXT_LENGTH),
                              TruncateText(processedText, MAX_TEXT_LENGTH), features);
      if writable {
        stored := Parsed(Saved(history, item));
      }
    }

    /** `getHistoryItem(id)`: the first stored item with the id, or nothing when none has it. */
    function GetHistoryItem(id: string): (r: Option<HistoryItem>)
      reads this
      ensures r.None? <==> forall i :: 0 <= i < |GetHistory()| ==> GetHistory()[i].id != id
      ensures r.Some? ==> r.value.id == id && r.value in GetHistory()
    {
      Find(GetHistory(), id)
    }

    /** `clearHistory()`. */
    method ClearHistory()
      modifies this
      ensures stored == Absent && GetHistory() == []
    {
      stored := Absent;
    }

    /** `deleteHistoryItem(id)`: the list without the items carrying `id`, written back. */
    method DeleteHistoryItem(id: string, writable: bool)
      modifies this
      ensures writable ==> GetHistory() == Without(old(GetHistory()), id)
      ensures !writable ==> stored == old(stored)
    {
      var history := GetHistory();
      if writable {
        stored := Parsed(Without(history, id));
      }
    }
  }

  /** The history never grows past ten items, however many saves follow one another. */
  lemma {:induction false} SavesStayCapped(history: seq<HistoryItem>, items: seq<HistoryItem>)
    requires |history| <= MAX_HISTORY_ITEMS
    ensures |SaveAll(history, items)| <= MAX_HISTORY_ITEMS
    ensures items != [] ==> SaveAll(history, items)[0] == items[|items| - 1]
  {
    if items != [] {
      SavesStayCapped(history, items[..|items| - 1]);
    }
  }

  /** The history after saving `items` one after the other. */
  function SaveAll(history: seq<HistoryItem>, items: seq<HistoryItem>): seq<HistoryItem> {
    if items == [] then history else Saved(SaveAll(history, items[..|items| - 1]), items[|items| - 1])
  }

  // ---------------------------------------------------------------------------
  // formatTimestamp

  /** What `formatTimestamp` shows; older times are shown as a locale-formatted date. */
  datatype Shown = Relative(text: string) | LocaleDate(timestamp: int)

  /**
   * `formatTimestamp(timestamp)` at time `now` (both in milliseconds). The divisions are
   * `Math.floor`, which for a positive divisor is the Euclidean division used here.
   */
  function FormatTimestamp(timestamp: int, now: int): (r: Shown)
    ensures now - timestamp < 60000 <==> r == Relative("剛才")
    ensures 60000 <= now - timestamp < 3600000 ==> r == Relative(ExportUtils.Decimal((now - timestamp) / 60000) + " 分鐘前")
    ensures 3600000 <= now - timestamp < 86400000 ==> r == Relative(ExportUtils.Decimal((now - timestamp) / 3600000) + " 小時前")
    ensures 86400000 <= now - timestamp < 604800000 ==> r == Relative(ExportUtils.Decimal((now - timestamp) / 86400000) + " 天前")
    ensures 604800000 <= now - timestamp <==> r == LocaleDate(timestamp)
  {
    var diffMs := now - timestamp;
    var diffMins := diffMs / 60000;
    var diffHours := diffMs / 3600000;
    var diffDays := diffMs / 86400000;
    if diffMins < 1 then Relative("剛才")
    else if diffMins < 60 then
      var t := ExportUtils.Decimal(diffMins) + " 分鐘前";
      assert t[|t| - 1] == '前' && "剛才"[1] == '才';
      Relative(t)
    else if diffHours < 24 then
      var t := ExportUtils.Decimal(diffHours) + " 小時前";
      assert t[|t| - 1] == '前' && "剛才"[1] == '才';
      Relative(t)
    else if diffDays < 7 then
      var t := ExportUtils.Decimal(diffDays) + " 天前";
      assert t[|t| - 1] == '前' && "剛才"[1] == '才';
      Relative(t)
    else LocaleDate(timestamp)
  }
}
