/** `HistoryManager`'s list of past calculations, most recent first. */
module History {
  /** One line of the history panel: the expression and its displayed result. */
  datatype Entry = Entry(expression: string, result: string)

  /** `addEntry`: the new entry goes on top, the older ones follow in their order. */
  function AddEntry(history: seq<Entry>, entry: Entry): (r: seq<Entry>)
    ensures |r| == |history| + 1
    ensures r[0] == entry && r[1..] == history
  {
    [entry] + history
  }

  /** `clear`: the list is emptied, whatever it held. */
  function Clear(history: seq<Entry>): (r: seq<Entry>)
    ensures |r| == 0
  {
    []
  }

  function Reverse<T>(s: seq<T>): (r: seq<T>)
    ensures |r| == |s|
  {
    if s == [] then [] else Reverse(s[1..]) + [s[0]]
  }

  /** The entries of `entries` added one after another, first to last. */
  function AddEntries(history: seq<Entry>, entries: seq<Entry>): (r: seq<Entry>)
    ensures |r| == |history| + |entries|
    decreases |entries|
  {
    if entries == [] then history else AddEntries(AddEntry(history, entries[0]), entries[1..])
  }

  /** Entries added one by one end up in reverse order, on top of the old list. */
  lemma {:induction false} AddEntriesReverses(history: seq<Entry>, entries: seq<Entry>)
    ensures AddEntries(history, entries) == Reverse(entries) + history
    decreases |entries|
  {
    if entries != [] {
      AddEntriesReverses(AddEntry(history, entries[0]), entries[1..]);
      assert Reverse(entries) == Reverse(entries[1..]) + [entries[0]];
      assert Reverse(entries[1..]) + ([entries[0]] + history) == Reverse(entries) + history;
    }
  }

  /** The most recently added entry is shown first, and the oldest ones keep their place at the bottom. */
  lemma MostRecentFirst(history: seq<Entry>, entries: seq<Entry>)
    requires entries != []
    ensures AddEntries(history, entries)[0] == entries[|entries| - 1]
    ensures AddEntries(history, entries)[|entries|..] == history
  {
    AddEntriesReverses(history, entries);
    ReverseFirst(entries);
  }

  lemma {:induction false} ReverseFirst<T>(s: seq<T>)
    requires s != []
    ensures Reverse(s)[0] == s[|s| - 1]
  {
    if |s| > 1 {
      ReverseFirst(s[1..]);
    }
  }
}
