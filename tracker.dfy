/** The capture controller (class TimeTracker): the start/stop toggle, and the
    timer tick that hashes a capture, scores it against the previous screen and
    stores it. Screen grabbing, PNG encoding and the SQL connection are outside
    the model: the encoded capture and the outcome of the INSERT are inputs. */
module Tracker {
  import opened Primitives
  import opened Checksum
  import opened Mse
  import opened Store

  /** The interval `timer->start` is given, in milliseconds. */
  const TickIntervalMs: nat := 60000
  const StartLabel: string := "Start"
  const StopLabel: string := "Stop"

  /** The timer's activity and interval, and the text of the start/stop action. */
  datatype Controls = Controls(timerActive: bool, timerIntervalMs: nat, buttonLabel: string)

  /** The text the start/stop action shows while the timer is (in)active. */
  function LabelFor(active: bool): string
  {
    if active then StopLabel else StartLabel
  }

  /** The controls after one click on the start/stop action. */
  function Clicked(c: Controls): Controls
  {
    if c.timerActive then Controls(false, c.timerIntervalMs, StartLabel)
    else Controls(true, TickIntervalMs, StopLabel)
  }

  /** The label names the action a click performs, and a running timer fires
      once a minute. */
  ghost predicate ControlsConsistent(c: Controls)
  {
    c.buttonLabel == LabelFor(c.timerActive) && (c.timerActive ==> c.timerIntervalMs == TickIntervalMs)
  }

  /** A click flips the timer; starting it sets the one-minute interval,
      stopping it keeps the interval; the label follows the new state. */
  lemma ClickedToggles(c: Controls)
    ensures Clicked(c).timerActive == !c.timerActive
    ensures Clicked(c).buttonLabel == LabelFor(!c.timerActive)
    ensures Clicked(c).timerIntervalMs == if c.timerActive then c.timerIntervalMs else TickIntervalMs
    ensures ControlsConsistent(Clicked(c))
  {
  }

  /** Two clicks restore the timer's activity and the label; once the timer
      has been started they restore the controls entirely. */
  lemma ClickedTwice(c: Controls)
    requires ControlsConsistent(c)
    ensures Clicked(Clicked(c)).timerActive == c.timerActive
    ensures Clicked(Clicked(c)).buttonLabel == c.buttonLabel
    ensures c.timerIntervalMs == TickIntervalMs ==> Clicked(Clicked(c)) == c
  {
  }

  /** The data the tick works on: the cached previous screen and the table. */
  datatype Snapshot = Snapshot(cache: seq<Byte>, store: seq<Record>)

  /** The state after a tick, and whether it emitted newItemAdded. */
  datatype TickOutcome = TickOutcome(after: Snapshot, notified: bool)

  /** The cache is empty or holds the image of some stored record. */
  ghost predicate CacheStored(s: Snapshot)
  {
    s.cache == [] || exists i :: 0 <= i < |s.store| && s.store[i].image == s.cache
  }

  /** TimeTracker::takeScreenshot on the encoded capture `captured`, where
      `insertOk` is whether the INSERT succeeds. With a cached screen it
      refreshes the cache, scores against it, inserts and notifies; without one
      it inserts with similarity 0.0 and then refreshes the cache. */
  function Tick(s: Snapshot, captured: seq<Byte>, insertOk: bool): TickOutcome
  {
    var hashSum := HashSum(captured);
    if s.cache != [] then
      var cache := Refreshed(s.cache, s.store);
      var r := Record(captured, Similarity(captured, cache), hashSum);
      TickOutcome(Snapshot(cache, Inserted(s.store, r, insertOk)), true)
    else
      var store := Inserted(s.store, Record(captured, Num(0.0), hashSum), insertOk);
      TickOutcome(Snapshot(Refreshed(s.cache, store), store), false)
  }

  /** A tick appends exactly one record when the insert succeeds and none when
      it fails, and never changes the records already stored. */
  lemma TickAppendsOnly(s: Snapshot, captured: seq<Byte>, insertOk: bool)
    ensures var store := Tick(s, captured, insertOk).after.store;
      && |store| == |s.store| + (if insertOk then 1 else 0)
      && store[..|s.store|] == s.store
      && (insertOk ==>
            store[|s.store|].image == captured && store[|s.store|].hashSum == HashSum(captured))
  {
    var hashSum := HashSum(captured);
    if s.cache != [] {
      var r := Record(captured, Similarity(captured, Refreshed(s.cache, s.store)), hashSum);
      InsertedAppendsOnly(s.store, r, insertOk);
    } else {
      InsertedAppendsOnly(s.store, Record(captured, Num(0.0), hashSum), insertOk);
    }
  }

  /** A tick keeps the cache equal to some stored image (or empty). */
  lemma TickKeepsCacheStored(s: Snapshot, captured: seq<Byte>, insertOk: bool)
    requires CacheStored(s)
    ensures CacheStored(Tick(s, captured, insertOk).after)
  {
    var t := Tick(s, captured, insertOk).after;
    TickAppendsOnly(s, captured, insertOk);
    if |t.store| > 0 && t.cache == t.store[|t.store| - 1].image {
    } else if t.cache != [] {
      var i :| 0 <= i < |s.store| && s.store[i].image == s.cache;
      assert t.store[i] == s.store[i];
    }
  }

  /** With a cached screen, a tick scores the capture against the latest
      stored image, caches that image, and notifies whether or not the insert
      succeeds. */
  lemma TickScoresAgainstLatest(s: Snapshot, captured: seq<Byte>, insertOk: bool)
    requires CacheStored(s) && s.cache != []
    ensures |s.store| > 0
    ensures var o := Tick(s, captured, insertOk);
      && o.notified
      && o.after.cache == s.store[|s.store| - 1].image
      && (insertOk ==> o.after.store[|s.store|].similarity
                         == Similarity(captured, s.store[|s.store| - 1].image))
  {
    var i :| 0 <= i < |s.store| && s.store[i].image == s.cache;
    TickAppendsOnly(s, captured, insertOk);
  }

  /** Without a cached screen, a tick stores similarity 0.0, does not notify,
      and then caches the latest stored image: the capture itself when the
      insert succeeds, and nothing new when it fails on an empty table. */
  lemma TickWithoutCacheScoresZero(s: Snapshot, captured: seq<Byte>, insertOk: bool)
    requires s.cache == []
    ensures var o := Tick(s, captured, insertOk);
      && !o.notified
      && (insertOk ==>
            o.after.store[|s.store|].similarity == Num(0.0) && o.after.cache == captured)
      && (!insertOk ==>
            o.after.store == s.store && o.after.cache == Refreshed([], s.store))
  {
    TickAppendsOnly(s, captured, insertOk);
  }

  /** The first record ever stored has similarity 0.0, since an empty table
      leaves nothing to cache. */
  lemma FirstRecordScoresZero(s: Snapshot, captured: seq<Byte>)
    requires CacheStored(s) && s.store == []
    ensures Tick(s, captured, true).after.store == [Record(captured, Num(0.0), HashSum(captured))]
  {
  }

  /** Once the cache is primed, a successful tick scores its capture against
      the capture stored by the tick just before it. */
  lemma ConsecutiveTicks(s: Snapshot, first: seq<Byte>, second: seq<Byte>, secondOk: bool)
    requires CacheStored(s)
    requires Tick(s, first, true).after.cache != []
    ensures var t := Tick(s, first, true).after;
      && Tick(t, second, secondOk).notified
      && (secondOk ==> Tick(t, second, secondOk).after.store[|t.store|].similarity
                         == Similarity(second, first))
  {
    var t := Tick(s, first, true).after;
    TickAppendsOnly(s, first, true);
    TickKeepsCacheStored(s, first, true);
    TickScoresAgainstLatest(t, second, secondOk);
  }

  class TimeTracker {
    /** `timer->isActive()` and the timer's interval in milliseconds. */
    var timerActive: bool
    var timerIntervalMs: nat
    /** The text of `startEndAction`. */
    var buttonLabel: string
    /** The cached previous capture; empty before the first refresh. */
    var previousScreen: seq<Byte>
    /** The rows of the `images` table, in id order. */
    var store: seq<Record>

    function ControlState(): Controls
      reads this
    {
      Controls(timerActive, timerIntervalMs, buttonLabel)
    }

    function State(): Snapshot
      reads this
    {
      Snapshot(previousScreen, store)
    }

    ghost predicate Valid()
      reads this
    {
      ControlsConsistent(ControlState()) && CacheStored(State())
    }

    /** A new tracker over an existing table: timer stopped with Qt's default
        interval 0, label "Start", nothing cached yet. */
    constructor (existing: seq<Record>)
      ensures Valid()
      ensures ControlState() == Controls(false, 0, StartLabel)
      ensures State() == Snapshot([], existing)
    {
      timerActive, timerIntervalMs, buttonLabel := false, 0, StartLabel;
      previousScreen, store := [], existing;
    }

    /** Stops a running timer, or starts a stopped one with a one-minute interval. */
    method StartEndButtonClicked()
      requires Valid()
      modifies this
      ensures Valid()
      ensures ControlState() == Clicked(old(ControlState()))
      ensures State() == old(State())
    {
      if timerActive {
        timerActive := false;
        buttonLabel := StartLabel;
      } else {
        timerActive, timerIntervalMs := true, TickIntervalMs;
        buttonLabel := StopLabel;
      }
    }

    /** Sums the signed values of the bytes. */
    method CalculateHashSum(byteArray: seq<Byte>) returns (sum: int)
      ensures sum == HashSum(byteArray)
      ensures -128 * |byteArray| <= sum <= 127 * |byteArray|
    {
      sum := 0;
      for i := 0 to |byteArray|
        invariant sum == HashSum(byteArray[..i])
      {
        assert byteArray[..i + 1][..i] == byteArray[..i];
        sum := sum + Signed(byteArray[i]);
      }
      assert byteArray[..|byteArray|] == byteArray;
      HashSumBounds(byteArray);
    }

    /** Scores `image1` against the cached previous screen. */
    method CalculateSimilarity(image1: seq<Byte>) returns (similarity: Double)
      ensures similarity == Similarity(image1, previousScreen)
      ensures |image1| != |previousScreen| ==> similarity == Num(0.0)
      ensures |image1| == |previousScreen| == 0 ==> similarity == NaN
      ensures |image1| == |previousScreen| > 0 ==>
                similarity.Num? && -25400.0 <= similarity.value <= 100.0
    {
      if |image1| != |previousScreen| {
        return Num(0.0);
      }
      var totalPixels := |image1|;
      var sumSquaredDiff: nat := 0;
      for i := 0 to totalPixels
        invariant sumSquaredDiff == SumSquaredDiff(image1[..i], previousScreen[..i])
      {
        assert image1[..i + 1][..i] == image1[..i];
        assert previousScreen[..i + 1][..i] == previousScreen[..i];
        var pixelDiff := image1[i] as int - previousScreen[i] as int;
        sumSquaredDiff := sumSquaredDiff + pixelDiff * pixelDiff;
      }
      assert image1[..totalPixels] == image1;
      assert previousScreen[..totalPixels] == previousScreen;
      if totalPixels == 0 {
        // 0.0 / 0 in IEEE-754 arithmetic
        return NaN;
      }
      var mse := sumSquaredDiff as real / totalPixels as real;
      var ratio := 1.0 - mse / 255.0;
      similarity := Num(ratio * 100.0);
      SimilarityRange(image1, previousScreen);
    }

    /** INSERTs one record; on failure the table is left as it was. */
    method UploadToDatabase(imageByteArray: seq<Byte>, hashSum: int, similarity: Double, insertOk: bool)
      requires Valid()
      modifies this`store
      ensures Valid()
      ensures store == Inserted(old(store), Record(imageByteArray, similarity, hashSum), insertOk)
    {
      var r := Record(imageByteArray, similarity, hashSum);
      InsertedAppendsOnly(store, r, insertOk);
      if insertOk {
        store := store + [r];
      }
    }

    /** Caches the image of the latest record, if there is one. */
    method SetLastScreenFromDB()
      requires Valid()
      modifies this`previousScreen
      ensures Valid()
      ensures previousScreen == Refreshed(old(previousScreen), store)
    {
      if |store| > 0 {
        previousScreen := store[|store| - 1].image;
      }
    }

    /** One timer tick on the encoded capture `captured`; `newItemAdded` is
        whether the tick emits the newItemAdded signal. */
    method TakeScreenshot(captured: seq<Byte>, insertOk: bool) returns (newItemAdded: bool)
      requires Valid()
      modifies this`previousScreen, this`store
      ensures Valid()
      ensures State() == Tick(old(State()), captured, insertOk).after
      ensures newItemAdded == Tick(old(State()), captured, insertOk).notified
    {
      var hashSum := CalculateHashSum(captured);
      if previousScreen != [] {
        SetLastScreenFromDB();
        var similarity := CalculateSimilarity(captured);
        UploadToDatabase(captured, hashSum, similarity, insertOk);
        newItemAdded := true;
      } else {
        UploadToDatabase(captured, hashSum, Num(0.0), insertOk);
        SetLastScreenFromDB();
        newItemAdded := false;
      }
    }
  }
}
