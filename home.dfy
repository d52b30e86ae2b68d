/**
 * The home page's progress tracking: a map from game key to "completed",
 * whether every game is done, how many are, and which game is on screen.
 */
module Home {
  import opened Common

  datatype Component = Memory | Maze | Reaction | Slider | Quiz

  datatype Entry = Entry(key: string, tabLabel: string, component: Component)

  const GAMES: seq<Entry> := [
    Entry("memory", "Memory Match", Memory),
    Entry("maze", "Maze", Maze),
    Entry("reaction", "Catch Hearts", Reaction),
    Entry("slider", "Slider", Slider),
    Entry("quiz", "Quiz", Quiz)
  ]

  type Progress = map<string, bool>

  /** `completed[key]` read as a condition: a missing key is `undefined`, which is falsy. */
  predicate Done(completed: Progress, key: string)
  {
    key in completed && completed[key]
  }

  /** No two entries share a key. */
  predicate DistinctKeys(games: seq<Entry>)
  {
    forall i, j :: 0 <= i < j < |games| ==> games[i].key != games[j].key
  }

  lemma GamesHaveDistinctKeys()
    ensures DistinctKeys(GAMES) && |GAMES| == 5
  {
  }

  // ---------------------------------------------------------------------------
  // The default progress map

  /** `Object.fromEntries(games.map(g => [g.key, false]))`. */
  function AllFalse(games: seq<Entry>): (m: Progress)
    ensures m.Keys == set i | 0 <= i < |games| :: games[i].key
    ensures forall k :: k in m ==> !m[k]
  {
    if games == [] then map[]
    else AllFalse(games[..|games| - 1])[games[|games| - 1].key := false]
  }

  /** The progress map used when nothing is stored. */
  function DefaultProgress(): Progress
  {
    AllFalse(GAMES)
  }

  /** The default map has exactly the five game keys, none of them done. */
  lemma DefaultProgressShape()
    ensures DefaultProgress().Keys == {"memory", "maze", "reaction", "slider", "quiz"}
    ensures forall k :: !Done(DefaultProgress(), k)
  {
    var keys := set i | 0 <= i < |GAMES| :: GAMES[i].key;
    assert GAMES[0].key == "memory" && GAMES[1].key == "maze" && GAMES[2].key == "reaction";
    assert GAMES[3].key == "slider" && GAMES[4].key == "quiz";
    forall k | k in keys
      ensures k in {"memory", "maze", "reaction", "slider", "quiz"}
    {
      var i :| 0 <= i < |GAMES| && GAMES[i].key == k;
    }
  }

  // ---------------------------------------------------------------------------
  // Derived values

  /** `GAMES.every(g => completed[g.key])`. */
  function Every(games: seq<Entry>, completed: Progress): (b: bool)
    ensures b <==> forall i :: 0 <= i < |games| ==> Done(completed, games[i].key)
  {
    if games == [] then true
    else Done(completed, games[0].key) && Every(games[1..], completed)
  }

  /** `GAMES.filter(g => completed[g.key]).length`. */
  function CountDone(games: seq<Entry>, completed: Progress): (n: nat)
    ensures n <= |games|
  {
    if games == [] then 0
    else (if Done(completed, games[0].key) then 1 else 0) + CountDone(games[1..], completed)
  }

  /** The count reaches the number of games exactly when every game is done. */
  lemma {:induction false} CountDoneFullIffEvery(games: seq<Entry>, completed: Progress)
    ensures CountDone(games, completed) == |games| <==> Every(games, completed)
    decreases |games|
  {
    if games != [] {
      CountDoneFullIffEvery(games[1..], completed);
    }
  }

  /** Marking a game done raises the count by one if it was not done yet, and otherwise leaves it. */
  lemma {:induction false} CountAfterMark(games: seq<Entry>, completed: Progress, key: string)
    requires DistinctKeys(games)
    ensures var listed := exists i :: 0 <= i < |games| && games[i].key == key;
      CountDone(games, completed[key := true]) ==
        CountDone(games, completed) + (if listed && !Done(completed, key) then 1 else 0)
    decreases |games|
  {
    if games != [] {
      var tail := games[1..];
      assert DistinctKeys(tail) by {
        forall i, j | 0 <= i < j < |tail|
          ensures tail[i].key != tail[j].key
        {
          assert tail[i] == games[i + 1] && tail[j] == games[j + 1];
        }
      }
      CountAfterMark(tail, completed, key);
      if games[0].key == key {
        assert forall i :: 0 <= i < |tail| ==> tail[i].key != key by {
          forall i | 0 <= i < |tail|
            ensures tail[i].key != key
          {
            assert tail[i] == games[i + 1];
          }
        }
      } else {
        var inTail := exists i :: 0 <= i < |tail| && tail[i].key == key;
        var inGames := exists i :: 0 <= i < |games| && games[i].key == key;
        if inGames {
          var i :| 0 <= i < |games| && games[i].key == key;
          assert i > 0 && tail[i - 1].key == key;
        }
        if inTail {
          var i :| 0 <= i < |tail| && tail[i].key == key;
          assert games[i + 1].key == key;
        }
      }
    }
  }

  /** The position of the first entry with key `key`, or -1. */
  function FindIndex(games: seq<Entry>, key: string): (i: int)
    ensures -1 <= i < |games|
    ensures i == -1 <==> forall j :: 0 <= j < |games| ==> games[j].key != key
    ensures i >= 0 ==> games[i].key == key && forall j :: 0 <= j < i ==> games[j].key != key
  {
    if games == [] then -1
    else if games[0].key == key then 0
    else
      var i := FindIndex(games[1..], key);
      if i == -1 then -1 else i + 1
  }

  /** `GAMES.find(g => g.key === activeKey)`: the first entry with that key, if any. */
  function Find(games: seq<Entry>, key: string): (r: Option<Entry>)
  {
    var i := FindIndex(games, key);
    if i == -1 then None else Some(games[i])
  }

  /** `ActiveGame`: the component of the active entry, or Memory when no entry matches. */
  function ActiveGame(activeKey: string): (c: Component)
  {
    match Find(GAMES, activeKey)
    case Some(g) => g.component
    case None => Memory
  }

  /** Each game key selects its own component; anything else falls back to Memory. */
  lemma ActiveGameLookup(activeKey: string)
    ensures forall i :: 0 <= i < |GAMES| && GAMES[i].key == activeKey ==> ActiveGame(activeKey) == GAMES[i].component
    ensures (forall i :: 0 <= i < |GAMES| ==> GAMES[i].key != activeKey) ==> ActiveGame(activeKey) == Memory
  {
    GamesHaveDistinctKeys();
    var k := FindIndex(GAMES, activeKey);
    forall i | 0 <= i < |GAMES| && GAMES[i].key == activeKey
      ensures ActiveGame(activeKey) == GAMES[i].component
    {
      assert k >= 0;
    }
  }

  // ---------------------------------------------------------------------------
  // The page's state

  /** The `completed` and `activeKey` state cells of the home page. */
  class Page {
    var completed: Progress
    var activeKey: string

    /** The first render: the stored map if there is one, otherwise every game not done; the first tab active. */
    constructor (stored: Option<Progress>)
      ensures completed == (if stored.Some? then stored.value else DefaultProgress())
      ensures activeKey == GAMES[0].key
    {
      completed := if stored.Some? then stored.value else DefaultProgress();
      activeKey := GAMES[0].key;
    }

    /** `markDone(key)`: record `key` as completed and leave every other entry. */
    method MarkDone(key: string)
      modifies this
      ensures completed == old(completed)[key := true]
      ensures Done(completed, key)
      ensures forall k :: k != key ==>
        (k in completed <==> k in old(completed)) && (k in completed ==> completed[k] == old(completed)[k])
      ensures activeKey == old(activeKey)
      ensures CountDone(GAMES, completed) == CountDone(GAMES, old(completed)) +
        (if (exists i :: 0 <= i < |GAMES| && GAMES[i].key == key) && !Done(old(completed), key) then 1 else 0)
    {
      GamesHaveDistinctKeys();
      CountAfterMark(GAMES, completed, key);
      completed := completed[key := true];
    }

    /** `setActiveKey` from the tab bar. */
    method SetActiveKey(key: string)
      modifies this
      ensures activeKey == key && completed == old(completed)
    {
      activeKey := key;
    }

    /** `allDone`. */
    predicate AllDone()
      reads this
    {
      Every(GAMES, completed)
    }

    /** `completedCount`. */
    function CompletedCount(): nat
      reads this
    {
      CountDone(GAMES, completed)
    }
  }

  /** Marking the same game twice has the same effect as marking it once. */
  lemma MarkDoneIdempotent(completed: Progress, key: string)
    ensures completed[key := true][key := true] == completed[key := true]
  {
  }

  /** The completed count is at most five, and is five exactly when every game is done. */
  lemma CompletedCountBound(completed: Progress)
    ensures CountDone(GAMES, completed) <= |GAMES|
    ensures CountDone(GAMES, completed) == |GAMES| <==> Every(GAMES, completed)
  {
    CountDoneFullIffEvery(GAMES, completed);
  }
}
