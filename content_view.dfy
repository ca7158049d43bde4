/** The cursor arithmetic of the playback loop. */
module Playback {

  /** Swift's `%` on `Int`: the remainder of the division truncated toward
      zero, so it takes the sign of `a`; Swift traps when `b == 0`. */
  function Remainder(a: int, b: int): (r: int)
    requires b != 0
    ensures a >= 0 ==> r == a % b
    ensures a < 0 ==> r == -((-a) % b)
  {
    var m := (if a < 0 then -a else a) % (if b < 0 then -b else b);
    if a < 0 then -m else m
  }

  /** One timer tick: `(currentIndex + 1) % datasets.count`. From a valid
      cursor it moves one frame on, wrapping from the last to the first. */
  function NextIndex(index: int, count: int): (r: int)
    requires count > 0
    ensures 0 <= index < count ==> 0 <= r < count
    ensures 0 <= index < count ==> r == if index + 1 == count then 0 else index + 1
  {
    Remainder(index + 1, count)
  }

  /** The cursor after `n` ticks from `index`. */
  function Ticks(index: int, n: nat, count: int): (r: int)
    requires count > 0
    ensures 0 <= index < count ==> 0 <= r < count
  {
    if n == 0 then index else NextIndex(Ticks(index, n - 1, count), count)
  }

  /** Helper for `ModUnique`: a positive multiple of `c` is at least `c`. */
  lemma MulAtLeast(d: int, c: int)
    requires d >= 1 && c > 0
    ensures d * c >= c
  {
  }

  /** Euclidean remainder is unique: `q * c + r` with `0 <= r < c` leaves
      remainder `r`. */
  lemma ModUnique(a: int, c: int, q: int, r: int)
    requires c > 0 && 0 <= r < c && a == q * c + r
    ensures a % c == r
  {
    var q', r' := a / c, a % c;
    assert a == q' * c + r';
    assert (q - q') * c == r' - r by {
      assert (q - q') * c == q * c - q' * c;
    }
    if q > q' {
      MulAtLeast(q - q', c);
    } else if q < q' {
      MulAtLeast(q' - q, c);
    }
  }

  /** Adding one moves the remainder one step round the cycle. */
  lemma ModStep(a: int, count: int)
    requires count > 0 && a >= 0
    ensures (a + 1) % count == if a % count + 1 == count then 0 else a % count + 1
  {
    var q, m := a / count, a % count;
    assert a == q * count + m;
    if m + 1 == count {
      assert a + 1 == (q + 1) * count + 0;
      ModUnique(a + 1, count, q + 1, 0);
    } else {
      ModUnique(a + 1, count, q, m + 1);
    }
  }

  /** `n` ticks from a valid cursor `i` land on `(i + n) % count`. */
  lemma {:induction false} TicksAdvance(i: int, n: nat, count: int)
    requires count > 0 && 0 <= i < count
    ensures Ticks(i, n, count) == (i + n) % count
  {
    if n > 0 {
      TicksAdvance(i, n - 1, count);
      ModStep(i + n - 1, count);
      assert (i + n - 1) + 1 == i + n;
    }
  }

  /** From the first frame, `n` ticks show frame `n % count`. */
  lemma TicksFromStart(n: nat, count: int)
    requires count > 0
    ensures Ticks(0, n, count) == n % count
  {
    TicksAdvance(0, n, count);
  }

  /** Seven ticks over five frames from the first frame reach frame 2. */
  lemma SevenTicksOverFive()
    ensures Ticks(0, 7, 5) == 2
  {
  }
}

/** The view's state and the operations that change it: loading the frame
    list, starting and stopping the playback timer, and the timer tick. */
module ContentView {
  import opened Wrappers
  import opened DicomData
  import opened FileOrder
  import opened SafeIndex
  import opened Playback

  /** One loaded file: its parsed dataset and its name. */
  datatype Frame = Frame(dataset: DataSet, filename: string)

  /** What `DicomInputStream(filePath:).readDataset()` gives for a file:
      a dataset, `nil`, or a thrown error. */
  datatype ReadResult = Parsed(dataset: DataSet) | NoDataset | ReadFailed

  /** What `contentsOfDirectory(atPath:)` gives: the entry names, or a
      thrown error. */
  datatype Listing = Listed(names: seq<string>) | ListingFailed

  /** A repeating `Timer`; whether it still fires is recorded by the run
      loop, modelled as `ContentViewState.scheduled`. */
  class Timer {
    constructor ()
    {
    }
  }

  /** The frames loaded from `names`, in order, skipping those whose read
      gives no dataset or fails. */
  function Loaded(names: seq<string>, read: string -> ReadResult): (frames: seq<Frame>)
    ensures |frames| <= |names|
    ensures forall k :: 0 <= k < |frames| ==>
      frames[k].filename in names && read(frames[k].filename) == Parsed(frames[k].dataset)
  {
    if names == [] then []
    else
      var last := names[|names| - 1];
      var earlier := Loaded(names[..|names| - 1], read);
      assert forall k :: 0 <= k < |earlier| ==> earlier[k].filename in names by {
        forall k | 0 <= k < |earlier| ensures earlier[k].filename in names {
          assert earlier[k].filename in names[..|names| - 1];
        }
      }
      match read(last)
      case Parsed(ds) => earlier + [Frame(ds, last)]
      case _ => earlier
  }

  function Filenames(frames: seq<Frame>): (names: seq<string>)
    ensures |names| == |frames|
    ensures forall k :: 0 <= k < |frames| ==> names[k] == frames[k].filename
  {
    seq(|frames|, k requires 0 <= k < |frames| => frames[k].filename)
  }

  /** The names whose read gives a dataset, in their original order: the
      skip-and-continue policy, stated independently of the loop. */
  function Readable(names: seq<string>, read: string -> ReadResult): (r: seq<string>)
    ensures forall k :: 0 <= k < |r| ==> r[k] in names && read(r[k]).Parsed?
    ensures forall k :: 0 <= k < |names| && read(names[k]).Parsed? ==> names[k] in r
  {
    if names == [] then []
    else (if read(names[0]).Parsed? then [names[0]] else []) + Readable(names[1..], read)
  }

  lemma {:induction false} ReadableAppend(a: seq<string>, b: seq<string>, read: string -> ReadResult)
    ensures Readable(a + b, read) == Readable(a, read) + Readable(b, read)
  {
    if a != [] {
      assert (a + b)[1..] == a[1..] + b;
      ReadableAppend(a[1..], b, read);
    } else {
      assert a + b == b;
    }
  }

  /** The frames loaded are exactly those of the readable names, in order:
      a failed read skips only its own file. */
  lemma {:induction false} LoadedIsReadable(names: seq<string>, read: string -> ReadResult)
    ensures Filenames(Loaded(names, read)) == Readable(names, read)
  {
    if names != [] {
      var n := |names|;
      var init, last := names[..n - 1], names[n - 1];
      LoadedIsReadable(init, read);
      assert names == init + [last];
      ReadableAppend(init, [last], read);
      assert Readable([last], read) == (if read(last).Parsed? then [last] else []) + Readable([], read);
      match read(last)
      case Parsed(ds) =>
        assert Loaded(names, read) == Loaded(init, read) + [Frame(ds, last)];
        assert Filenames(Loaded(names, read)) == Filenames(Loaded(init, read)) + [last];
      case _ =>
        assert Loaded(names, read) == Loaded(init, read);
    }
  }

  /** Skipping unreadable files keeps the order of the rest: loading a
      list ascending by key gives frames ascending by key. */
  lemma {:induction false} LoadedKeepsOrder(names: seq<string>, read: string -> ReadResult, key: string -> int)
    requires SortedBy(names, key)
    ensures SortedBy(Filenames(Loaded(names, read)), key)
  {
    if names != [] {
      var n := |names|;
      var init := names[..n - 1];
      assert SortedBy(init, key);
      LoadedKeepsOrder(init, read, key);
      var earlier := Loaded(init, read);
      var before := Filenames(earlier);
      forall k | 0 <= k < |before|
        ensures key(before[k]) <= key(names[n - 1])
      {
        var j :| 0 <= j < |init| && init[j] == earlier[k].filename;
        assert names[j] == init[j];
      }
      match read(names[n - 1])
      case Parsed(ds) =>
        assert Loaded(names, read) == earlier + [Frame(ds, names[n - 1])];
        assert Filenames(Loaded(names, read)) == before + [names[n - 1]];
      case _ =>
        assert Loaded(names, read) == earlier;
    }
  }

  /** When every file reads, every selected name is loaded, in order. */
  lemma {:induction false} LoadedAll(names: seq<string>, read: string -> ReadResult)
    requires forall k :: 0 <= k < |names| ==> read(names[k]).Parsed?
    ensures Filenames(Loaded(names, read)) == names
  {
    if names != [] {
      var n := |names|;
      LoadedAll(names[..n - 1], read);
      assert names == names[..n - 1] + [names[n - 1]];
    }
  }

  /** The `@State` of `ContentView`, together with the run loop's set of
      timers that still fire on its behalf. */
  class ContentViewState {
    var datasets: seq<Frame>
    var currentIndex: int
    var timer: Timer?
    var errorMessage: Option<string>
    var scheduled: set<Timer>

    /** The cursor is a valid index when there are frames and still at the
        start when there are none, the only timer still scheduled is the
        one the view holds, and a timer is held only once frames exist. */
    ghost predicate Valid()
      reads this
    {
      (if |datasets| == 0 then currentIndex == 0 else 0 <= currentIndex < |datasets|) &&
      scheduled == (if timer == null then {} else {timer}) &&
      (timer != null ==> |datasets| > 0)
    }

    constructor ()
      ensures Valid()
      ensures datasets == [] && currentIndex == 0 && timer == null
      ensures errorMessage == None && scheduled == {}
    {
      datasets := [];
      currentIndex := 0;
      timer := null;
      errorMessage := None;
      scheduled := {};
    }

    /** `stopVideoLoop`: invalidates the held timer, if any, and forgets
        it. Calling it with no timer held changes nothing. */
    method StopVideoLoop()
      modifies this`timer, this`scheduled
      ensures timer == null
      ensures scheduled == old(scheduled) - (if old(timer) == null then {} else {old(timer)})
      ensures old(Valid()) ==> Valid() && scheduled == {}
      ensures datasets == old(datasets) && currentIndex == old(currentIndex)
    {
      if timer != null {
        scheduled := scheduled - {timer};
      }
      timer := null;
    }

    /** `startVideoLoop`: stops any running timer first, then schedules a
        new repeating one and holds it, so exactly one timer fires. The
        view calls it only from the branch shown when frames are loaded. */
    method StartVideoLoop()
      requires Valid() && |datasets| > 0
      modifies this`timer, this`scheduled
      ensures Valid()
      ensures timer != null && fresh(timer) && scheduled == {timer}
      ensures datasets == old(datasets) && currentIndex == old(currentIndex)
    {
      StopVideoLoop();
      var t := new Timer();
      scheduled := scheduled + {t};
      timer := t;
    }

    /** The timer's closure, run each time a scheduled timer fires. The
        `%` would trap with no frames; the invariant rules that out, since
        a timer is only ever scheduled once frames are loaded. */
    method Tick(fired: Timer)
      requires Valid() && fired in scheduled
      modifies this`currentIndex
      ensures Valid() && |datasets| > 0
      ensures currentIndex == NextIndex(old(currentIndex), |datasets|)
    {
      currentIndex := NextIndex(currentIndex, |datasets|);
    }

    /** `datasets[safe: currentIndex]`: the frame on screen. */
    function CurrentFrame(): (f: Option<Frame>)
      reads this
      requires Valid()
      ensures f.Some? <==> |datasets| > 0
      ensures f.Some? ==> f.value == datasets[currentIndex]
    {
      SafeGet(datasets, currentIndex)
    }

    /** `loadDicomFiles`: without a resource folder, records the error
        message; when the listing fails, changes nothing; otherwise appends
        a frame for each selected name, in key order, whose read gives a
        dataset. The folder path, the listing and the reader are inputs. */
    method LoadDicomFiles(resourcePath: Option<string>, listing: Listing, read: string -> ReadResult)
      requires Valid()
      modifies this`datasets, this`errorMessage
      ensures Valid()
      ensures resourcePath.None? ==>
        errorMessage == Some("DICOM folder not found") && datasets == old(datasets)
      ensures resourcePath.Some? ==> errorMessage == old(errorMessage)
      ensures resourcePath.Some? && listing.ListingFailed? ==> datasets == old(datasets)
      ensures resourcePath.Some? && listing.Listed? ==>
        datasets == old(datasets) + Loaded(SelectDicomFiles(listing.names), read)
    {
      if resourcePath.None? {
        errorMessage := Some("DICOM folder not found");
        return;
      }
      match listing
      case ListingFailed =>
      case Listed(files) =>
        var sortedFiles := SelectDicomFiles(files);
        AppendDatasets(sortedFiles, read);
    }

    /** The loop of `loadDicomFiles` over the sorted names: reads each one
        and appends its frame when the read gives a dataset; a `nil` result
        or a thrown error only logs and moves on. */
    method AppendDatasets(sortedFiles: seq<string>, read: string -> ReadResult)
      requires Valid()
      modifies this`datasets
      ensures Valid()
      ensures datasets == old(datasets) + Loaded(sortedFiles, read)
    {
      var i := 0;
      while i < |sortedFiles|
        invariant 0 <= i <= |sortedFiles|
        invariant datasets == old(datasets) + Loaded(sortedFiles[..i], read)
        invariant Valid()
      {
        var file := sortedFiles[i];
        ghost var done := sortedFiles[..i + 1];
        assert done[..i] == sortedFiles[..i] && done[i] == file;
        match read(file) {
          case Parsed(dataset) =>
            datasets := datasets + [Frame(dataset, file)];
          case NoDataset =>
          case ReadFailed =>
        }
        i := i + 1;
      }
      assert sortedFiles[..i] == sortedFiles;
    }
  }
}
