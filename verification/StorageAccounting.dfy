/**
 * The Settings side of storage accounting (KikiStorageAccounting.java): the guard on the published
 * properties, the three figures it yields, and one reader racing the native refreshes.
 */
module StorageAccounting {
  import opened Wrappers
  import opened StorageMeasure

  // ---- 64-bit arithmetic ------------------------------------------------

  const TWO_TO_THE_63 := 0x8000_0000_0000_0000
  const WORDS := 0x1_0000_0000_0000_0000

  type long = x: int | -TWO_TO_THE_63 <= x < TWO_TO_THE_63

  /** Two's-complement wrap-around. */
  function Wrap(x: int): long { (x + TWO_TO_THE_63) % WORDS - TWO_TO_THE_63 }

  function Add(a: long, b: long): long { Wrap(a + b) }

  function Subtract(a: long, b: long): long { Wrap(a - b) }

  lemma NoOverflow(x: int)
    requires -TWO_TO_THE_63 <= x < TWO_TO_THE_63
    ensures Wrap(x) == x
  {
  }

  // ---- Properties and the guard -----------------------------------------

  /** The published properties: whether the status reads "ready", and the three decimal numbers once set. */
  datatype Properties = Properties(ready: bool, disk: Option<nat>, data: Option<nat>, images: Option<nat>)

  /** SystemProperties.getLong(key, -1): an unset number, or one that is no long, reads as -1. */
  function GetLong(value: Option<nat>): (r: long)
    ensures r >= -1
  {
    if value.Some? && value.value < TWO_TO_THE_63 then value.value else -1
  }

  /** The data directory's sizes; `layout`: the device has the A/B layout. */
  datatype Device = Device(layout: bool, data: long, free: long, usable: long)

  function GuardedImages(p: Properties, d: Device, total: long): long {
    if !d.layout || !p.ready || GetLong(p.disk) != total then -1
    else
      var image := GetLong(p.images);
      if d.data <= 0 || GetLong(p.data) != d.data || image <= 0 || image > total
          || d.data > Subtract(total, image) then -1
      else image
  }

  function UsedBytes(p: Properties, d: Device, total: long, free: long): long {
    var image := GuardedImages(p, d, total);
    var fallback := if Subtract(total, free) > 0 then Subtract(total, free) else 0;
    if image < 0 || d.free < 0 || d.free > d.data then fallback
    else Subtract(Add(image, d.data), d.free)
  }

  function SystemBytes(p: Properties, d: Device, total: long, fallback: long): long {
    var image := GuardedImages(p, d, total);
    if image < 0 then fallback else image
  }

  function ReservedBytes(p: Properties, d: Device, total: long): long {
    var image := GuardedImages(p, d, total);
    if image < 0 || d.usable < 0 || d.free < d.usable || d.free > d.data then -1
    else Subtract(Add(Subtract(Subtract(total, d.data), image), d.free), d.usable)
  }

  function WritableBytes(p: Properties, d: Device, total: long): long {
    if GuardedImages(p, d, total) < 0 then -1 else d.usable
  }

  predicate Sane(d: Device) { 0 <= d.usable <= d.free <= d.data }

  /**
   * Once the guard passes, sane sizes are accounted for exactly: used, reserved and writable bytes lie between
   * 0 and the total and add up to it, and nothing wrapped on the way. Insane sizes are refused.
   */
  lemma Conservation(p: Properties, d: Device, total: long, free: long)
    requires GuardedImages(p, d, total) >= 0
    ensures Sane(d) ==>
              && 0 <= UsedBytes(p, d, total, free) <= total
              && 0 <= ReservedBytes(p, d, total) <= total
              && 0 <= WritableBytes(p, d, total) <= total
              && UsedBytes(p, d, total, free) + ReservedBytes(p, d, total) + WritableBytes(p, d, total) == total
              && UsedBytes(p, d, total, free) == SystemBytes(p, d, total, 0) + (d.data - d.free)
    ensures ReservedBytes(p, d, total) >= 0 <==> Sane(d)
  {
    GuardMeans(p, d, total);
    if Sane(d) {
      Figures(GuardedImages(p, d, total), d.data, d.free, d.usable, total);
    }
  }

  lemma GuardMeans(p: Properties, d: Device, total: long)
    requires GuardedImages(p, d, total) >= 0
    ensures 0 < GuardedImages(p, d, total) && 0 < d.data && GuardedImages(p, d, total) + d.data <= total
  {
    var image := GetLong(p.images);
    if 0 < image <= total {
      NoOverflow(total - image);
    }
  }

  lemma Figures(image: long, data: long, free: long, usable: long, total: long)
    requires 0 < image && 0 < data && image + data <= total && 0 <= usable <= free <= data
    ensures Subtract(Add(image, data), free) == image + data - free
    ensures Subtract(Add(Subtract(Subtract(total, data), image), free), usable) == total - data - image + free - usable
  {
    NoOverflow(image + data);
    NoOverflow(image + data - free);
    NoOverflow(total - data);
    NoOverflow(total - data - image);
    NoOverflow(total - data - image + free);
    NoOverflow(total - data - image + free - usable);
  }

  /** The properties after a measurement was published. */
  function Published(x: Measurement): Properties { Properties(true, Some(x.disk), Some(x.data), Some(x.images)) }

  /**
   * A sound measurement, and every one taken is sound, passes the guard exactly for the disk and mount it was
   * taken of.
   */
  lemma PublishedPasses(x: Measurement, d: Device, total: long)
    requires Sound(x) && d.layout
    ensures GuardedImages(Published(x), d, total) == if x.disk == total && x.data == d.data then x.images else -1
  {
    if x.disk == total {
      NoOverflow(total - x.images);
    }
  }

  /** The guard passes exactly when the published numbers are those of this disk and mount and fit it together. */
  lemma GuardIff(p: Properties, d: Device, total: long)
    ensures GuardedImages(p, d, total) >= 0 <==>
              && d.layout && p.ready && p.disk.Some? && p.disk.value == total && p.data.Some? && p.data.value == d.data
              && p.images.Some? && 0 < p.images.value && 0 < d.data <= total - p.images.value
    ensures GuardedImages(p, d, total) == if GuardedImages(p, d, total) >= 0 then p.images.value else -1
  {
    if p.images.Some? && 0 < p.images.value <= total {
      NoOverflow(total - p.images.value);
    }
  }

  /** Where the guard fails, or the sizes are out of order, the figures fall back. */
  lemma Fallbacks(p: Properties, d: Device, total: long, free: long, fallback: long)
    requires 0 <= total && 0 <= free
    ensures GuardedImages(p, d, total) < 0 ==>
              && SystemBytes(p, d, total, fallback) == fallback
              && ReservedBytes(p, d, total) == WritableBytes(p, d, total) == -1
    ensures GuardedImages(p, d, total) < 0 || !(0 <= d.free <= d.data) ==>
              UsedBytes(p, d, total, free) == if total > free then total - free else 0
    ensures GuardedImages(p, d, total) >= 0 ==>
              && WritableBytes(p, d, total) == d.usable && SystemBytes(p, d, total, fallback) == p.images.value
  {
    NoOverflow(total - free);
    GuardIff(p, d, total);
  }

  // ---- One reader among refreshes ---------------------------------------

  /** Where a refresh stands; while publishing, `stage` of its three numbers are set. */
  datatype Writer = Resting | Measuring | Publishing(x: Measurement, stage: nat)

  /** Where the reader stands in images(total), with the number it has read. */
  datatype Reader = NotStarted | SawReady | SawDisk | SawImages(image: long) | SawData(image: long)
      | Returned(result: long)

  /** `completed` and `abandoned`: refreshes that reached ready, and ones that set all numbers and then failed. */
  datatype State = State(
    p: Properties, writer: Writer, completed: seq<Measurement>, abandoned: seq<Measurement>, reader: Reader)

  /** What the reader asks, and the stages of publication at which refreshes may fail. */
  datatype World = World(d: Device, total: long, failures: set<nat>)

  datatype Event = Start | MeasureAll(m: Machine) | Publish | Fail | Read

  function Initial(): State { State(Properties(false, None, None, None), Resting, [], [], NotStarted) }

  predicate Enabled(s: State, e: Event, w: World) {
    match e
    case Start => s.writer.Resting?
    case MeasureAll(m) => s.writer.Measuring?
    case Publish => s.writer.Publishing?
    case Fail => s.writer.Publishing? && s.writer.stage in w.failures
    case Read => !s.reader.Returned?
  }

  /** The next property, then the status. */
  function PublishNext(s: State): State
    requires s.writer.Publishing?
  {
    var x, next := s.writer.x, s.(writer := Publishing(s.writer.x, s.writer.stage + 1));
    if s.writer.stage == 0 then next.(p := s.p.(disk := Some(x.disk)))
    else if s.writer.stage == 1 then next.(p := s.p.(data := Some(x.data)))
    else if s.writer.stage == 2 then next.(p := s.p.(images := Some(x.images)))
    else s.(p := s.p.(ready := true), writer := Resting, completed := s.completed + [x])
  }

  /** A refresh that fails leaves the numbers it has set, and a status that is not ready. */
  function FailNow(s: State): State
    requires s.writer.Publishing?
  {
    s.(p := s.p.(ready := false), writer := Resting,
       abandoned := if s.writer.stage < 3 then s.abandoned else s.abandoned + [s.writer.x])
  }

  /** The reader's next access, in the order images(total) makes them. */
  function ReadNext(s: State, w: World): State {
    match s.reader
    case NotStarted => s.(reader := if w.d.layout && s.p.ready then SawReady else Returned(-1))
    case SawReady => s.(reader := if GetLong(s.p.disk) == w.total then SawDisk else Returned(-1))
    case SawDisk => s.(reader := SawImages(GetLong(s.p.images)))
    case SawImages(image) =>
      s.(reader := if w.d.data <= 0 || GetLong(s.p.data) != w.d.data then Returned(-1) else SawData(image))
    case SawData(image) =>
      var refused := image <= 0 || image > w.total || w.d.data > Subtract(w.total, image) || !s.p.ready;
      s.(reader := if refused then Returned(-1) else Returned(image))
    case Returned(_) => s
  }

  function Step(s: State, e: Event, w: World): State
    requires Enabled(s, e, w)
  {
    match e
    case Start => s.(p := s.p.(ready := false), writer := Measuring)
    case MeasureAll(m) =>
      if Measured(m).Some? then s.(writer := Publishing(Measured(m).value, 0))
      else s.(p := s.p.(ready := false), writer := Resting)
    case Publish => PublishNext(s)
    case Fail => FailNow(s)
    case Read => ReadNext(s, w)
  }

  ghost predicate Reaches(s: State, es: seq<Event>, t: State, w: World)
    decreases |es|
  {
    if es == [] then s == t else Enabled(s, es[0], w) && Reaches(Step(s, es[0], w), es[1..], t, w)
  }

  predicate In(image: int, xs: seq<Measurement>) { exists i :: 0 <= i < |xs| && xs[i].images == image }

  /** The number comes from a refresh that reached ready, failed after setting it, or is about to do either. */
  predicate Known(image: int, s: State) {
    In(image, s.completed) || In(image, s.abandoned)
    || (s.writer.Publishing? && s.writer.stage == 3 && s.writer.x.images == image)
  }

  predicate AllSound(xs: seq<Measurement>) { forall i :: 0 <= i < |xs| ==> Sound(xs[i]) }

  predicate Inv(s: State, w: World) {
    && (s.p.ready ==> s.writer.Resting?)
    && (s.writer.Publishing? ==> s.writer.stage <= 3 && Sound(s.writer.x))
    && AllSound(s.completed) && AllSound(s.abandoned)
    && (s.abandoned != [] ==> 3 in w.failures)
    && (s.p.images.Some? ==> Known(s.p.images.value, s))
    && match s.reader
       case SawImages(image) => image >= 0 ==> Known(image, s)
       case SawData(image) => 0 < w.d.data && (image >= 0 ==> Known(image, s))
       case Returned(image) =>
         && (image >= 0 ==> In(image, s.completed) || In(image, s.abandoned))
         && (image >= 0 ==> 0 < image <= w.total && 0 < w.d.data <= w.total - image)
       case _ => true
  }

  lemma InMore(image: int, xs: seq<Measurement>, x: Measurement)
    ensures In(image, xs) ==> In(image, xs + [x])
    ensures In(x.images, xs + [x])
  {
    if In(image, xs) {
      var i :| 0 <= i < |xs| && xs[i].images == image;
      assert (xs + [x])[i].images == image;
    }
    assert (xs + [x])[|xs|] == x;
  }

  /** A refresh ends: it reaches ready, or fails at some stage. */
  predicate Ends(s: State, e: Event, w: World) {
    Enabled(s, e, w) && (e.Fail? || (e.Publish? && s.writer.stage >= 3))
  }

  /** A number known before a refresh ends is known after it. */
  lemma KnownStays(image: int, s: State, e: Event, w: World)
    requires Ends(s, e, w) && Known(image, s)
    ensures Known(image, Step(s, e, w))
  {
    InMore(image, s.completed, s.writer.x);
    InMore(image, s.abandoned, s.writer.x);
  }

  lemma EndKeepsInv(s: State, e: Event, w: World)
    requires Inv(s, w) && Ends(s, e, w)
    ensures Inv(Step(s, e, w), w)
  {
    if s.p.images.Some? {
      KnownStays(s.p.images.value, s, e, w);
    }
    match s.reader
    case SawImages(image) => if image >= 0 { KnownStays(image, s, e, w); }
    case SawData(image) => if image >= 0 { KnownStays(image, s, e, w); }
    case Returned(image) => if image >= 0 { KnownStays(image, s, e, w); }
    case _ =>
  }

  lemma ReadKeepsInv(s: State, w: World)
    requires Inv(s, w) && Enabled(s, Read, w)
    ensures Inv(Step(s, Read, w), w)
  {
    if s.reader.SawData? && 0 < s.reader.image <= w.total {
      NoOverflow(w.total - s.reader.image);
    }
  }

  lemma StepKeepsInv(s: State, e: Event, w: World)
    requires Inv(s, w) && Enabled(s, e, w)
    ensures Inv(Step(s, e, w), w)
  {
    match e
    case MeasureAll(m) => if Measured(m).Some? { MeasuredIsSound(m); }
    case Publish => if s.writer.stage == 3 { EndKeepsInv(s, e, w); }
    case Fail => EndKeepsInv(s, e, w);
    case Read => ReadKeepsInv(s, w);
    case _ =>
  }

  lemma {:induction false} RunKeepsInv(s: State, es: seq<Event>, t: State, w: World)
    requires Inv(s, w) && Reaches(s, es, t, w)
    ensures Inv(t, w)
    decreases |es|
  {
    if es != [] {
      StepKeepsInv(s, es[0], w);
      RunKeepsInv(Step(s, es[0], w), es[1..], t, w);
    }
  }

  /**
   * In every interleaving with refreshes that do not fail between their last number and ready, a value the
   * reader returns is the sound total of a refresh that had reached ready, and fits the disk beside the data.
   */
  lemma ReaderIsRight(es: seq<Event>, s: State, w: World)
    requires Reaches(Initial(), es, s, w) && 3 !in w.failures && s.reader.Returned? && s.reader.result >= 0
    ensures exists i :: 0 <= i < |s.completed| && s.completed[i].images == s.reader.result && Sound(s.completed[i])
    ensures 0 < w.d.data <= w.total - s.reader.result < w.total
  {
    RunKeepsInv(Initial(), es, s, w);
    assert !In(s.reader.result, s.abandoned);
  }

  /** Whatever fails, the value is the sound total of a refresh that set all its numbers, ready or not. */
  lemma ReaderIsBounded(es: seq<Event>, s: State, w: World)
    requires Reaches(Initial(), es, s, w) && s.reader.Returned? && s.reader.result >= 0
    ensures exists x: Measurement :: (x in s.completed || x in s.abandoned) && x.images == s.reader.result && Sound(x)
    ensures 0 < w.d.data <= w.total - s.reader.result < w.total
  {
    RunKeepsInv(Initial(), es, s, w);
    if In(s.reader.result, s.completed) {
      var i :| 0 <= i < |s.completed| && s.completed[i].images == s.reader.result;
      assert s.completed[i] in s.completed;
    } else {
      var i :| 0 <= i < |s.abandoned| && s.abandoned[i].images == s.reader.result;
      assert s.abandoned[i] in s.abandoned;
    }
  }

  /** A reader that no refresh disturbs returns what the guard lets through. */
  lemma ReaderIsGuard(s: State, w: World)
    requires s.reader == NotStarted
    ensures ReadNext(ReadNext(ReadNext(ReadNext(ReadNext(s, w), w), w), w), w).reader
            == Returned(GuardedImages(s.p, w.d, w.total))
  {
  }

  /** A refresh sets its numbers in order, and a ready status stands for the last one that got there. */
  predicate InOrder(s: State) {
    && (s.writer.Publishing? ==>
          && (s.writer.stage >= 1 ==> s.p.disk == Some(s.writer.x.disk))
          && (s.writer.stage >= 2 ==> s.p.data == Some(s.writer.x.data))
          && (s.writer.stage >= 3 ==> s.p.images == Some(s.writer.x.images)))
    && (s.p.ready ==> s.writer.Resting? && s.completed != [] && s.p == Published(s.completed[|s.completed| - 1]))
  }

  lemma StepInOrder(s: State, e: Event, w: World)
    requires InOrder(s) && Enabled(s, e, w)
    ensures InOrder(Step(s, e, w))
  {
  }

  /** In every run the status reads ready only beside all the numbers of the refresh that completed last. */
  lemma {:induction false} RunInOrder(s: State, es: seq<Event>, t: State, w: World)
    requires InOrder(s) && Reaches(s, es, t, w)
    ensures InOrder(t)
    decreases |es|
  {
    if es != [] {
      StepInOrder(s, es[0], w);
      RunInOrder(Step(s, es[0], w), es[1..], t, w);
    }
  }

  /** A value is returned only by a reader that found the status ready before its first number and after its last. */
  lemma {:induction false} ReadyTwice(s: State, es: seq<Event>, t: State, w: World) returns (first: State, last: State)
    requires Reaches(s, es, t, w) && s.reader == NotStarted && t.reader.Returned? && t.reader.result >= 0
    ensures first.reader == NotStarted && first.p.ready && w.d.layout
    ensures last.reader == SawData(t.reader.result) && last.p.ready
    decreases |es|
  {
    var next := Step(s, es[0], w);
    if next.reader == NotStarted {
      first, last := ReadyTwice(next, es[1..], t, w);
    } else {
      first := s;
      last := ReadyAtEnd(next, es[1..], t, w);
    }
  }

  /** A reader that has started returns a value only from a last look at a ready status. */
  lemma {:induction false} ReadyAtEnd(s: State, es: seq<Event>, t: State, w: World) returns (last: State)
    requires Reaches(s, es, t, w) && !s.reader.NotStarted? && !(s.reader.Returned? && s.reader.result >= 0)
    requires t.reader.Returned? && t.reader.result >= 0
    ensures last.reader == SawData(t.reader.result) && last.p.ready && !s.reader.Returned?
    decreases |es|
  {
    var next := Step(s, es[0], w);
    if next.reader.Returned? && next.reader.result >= 0 {
      last := s;
      ReturnedStays(next, es[1..], t, w);
    } else {
      last := ReadyAtEnd(next, es[1..], t, w);
    }
  }

  lemma {:induction false} ReturnedStays(s: State, es: seq<Event>, t: State, w: World)
    requires Reaches(s, es, t, w) && s.reader.Returned?
    ensures t.reader == s.reader
    decreases |es|
  {
    if es != [] {
      ReturnedStays(Step(s, es[0], w), es[1..], t, w);
    }
  }

  /** A refresh that cannot measure publishes nothing, withdraws the status, and lets another start. */
  lemma FailedMeasure(s: State, m: Machine, w: World)
    requires s.writer.Measuring? && Measured(m).None?
    ensures var t := Step(s, MeasureAll(m), w);
            t == s.(p := s.p.(ready := false), writer := Resting) && Enabled(t, Start, w)
  {
  }

  // ---- A refresh that fails after its last number -----------------------

  lemma {:induction false} ReachesJoin(s: State, a: seq<Event>, t: State, b: seq<Event>, u: State, w: World)
    requires Reaches(s, a, t, w) && Reaches(t, b, u, w)
    ensures Reaches(s, a + b, u, w)
    decreases |a|
  {
    if a == [] {
      assert a + b == b;
    } else {
      ReachesJoin(Step(s, a[0], w), a[1..], t, b, u, w);
      assert (a + b)[1..] == a[1..] + b;
    }
  }

  /** Some run leads from `s` to `t`. */
  ghost predicate Leads(s: State, t: State, w: World) { exists es :: Reaches(s, es, t, w) }

  lemma RunTo(s: State, t: State, w: World) returns (es: seq<Event>)
    requires Leads(s, t, w)
    ensures Reaches(s, es, t, w)
  {
    es :| Reaches(s, es, t, w);
  }

  lemma LeadsNowhere(s: State, w: World)
    ensures Leads(s, s, w)
  {
    assert Reaches(s, [], s, w);
  }

  lemma LeadsJoin(s: State, t: State, u: State, w: World)
    requires Leads(s, t, w) && Leads(t, u, w)
    ensures Leads(s, u, w)
  {
    var a :| Reaches(s, a, t, w);
    var b :| Reaches(t, b, u, w);
    ReachesJoin(s, a, t, b, u, w);
  }

  /** A run is continued by one event. */
  lemma LeadsThen(s: State, t: State, e: Event, w: World)
    requires Leads(s, t, w) && Enabled(t, e, w)
    ensures Leads(s, Step(t, e, w), w)
  {
    var u := Step(t, e, w);
    assert Reaches(u, [e][1..], u, w);
    assert Reaches(t, [e], u, w);
    LeadsJoin(s, t, u, w);
  }

  /** A refresh measures. */
  lemma MeasureRun(s: State, m: Machine, x: Measurement, w: World)
    requires s.writer.Resting? && Measured(m) == Some(x)
    ensures Leads(s, s.(p := s.p.(ready := false), writer := Publishing(x, 0)), w)
  {
    LeadsNowhere(s, w);
    LeadsThen(s, s, Start, w);
    LeadsThen(s, s.(p := s.p.(ready := false), writer := Measuring), MeasureAll(m), w);
  }

  /** The state with a refresh's three numbers set, and its status still to come. */
  function Numbered(s: State, x: Measurement): State {
    s.(p := Properties(false, Some(x.disk), Some(x.data), Some(x.images)), writer := Publishing(x, 3))
  }

  /** A refresh up to its third number. */
  lemma NumbersRun(s: State, m: Machine, x: Measurement, w: World)
    requires s.writer.Resting? && Measured(m) == Some(x)
    ensures Leads(s, Numbered(s, x), w)
  {
    var s1 := s.(p := s.p.(ready := false), writer := Publishing(x, 0));
    MeasureRun(s, m, x, w);
    LeadsThen(s, s1, Publish, w);
    var s2 := PublishNext(s1);
    LeadsThen(s, s2, Publish, w);
    LeadsThen(s, PublishNext(s2), Publish, w);
  }

  /** The state after a refresh that reached ready. */
  function Refreshed(s: State, x: Measurement): State {
    s.(p := Published(x), writer := Resting, completed := s.completed + [x])
  }

  lemma ReadyRun(s: State, m: Machine, x: Measurement, w: World)
    requires s.writer.Resting? && Measured(m) == Some(x)
    ensures Leads(s, Refreshed(s, x), w)
  {
    NumbersRun(s, m, x, w);
    LeadsThen(s, Numbered(s, x), Publish, w);
  }

  /** A refresh reaches ready, and the reader checks status and disk. */
  lemma ChecksRun(s: State, m: Machine, x: Measurement, w: World)
    requires s.writer.Resting? && Measured(m) == Some(x) && s.reader == NotStarted
    requires w.d.layout && x.disk == w.total
    ensures Leads(s, Refreshed(s, x).(reader := SawDisk), w)
  {
    ReadyRun(s, m, x, w);
    LeadsThen(s, Refreshed(s, x), Read, w);
    LeadsThen(s, Refreshed(s, x).(reader := SawReady), Read, w);
  }

  /** The reader reads the number of a refresh that then fails. */
  lemma FailedRun(s: State, m: Machine, x: Measurement, w: World)
    requires s.writer.Resting? && Measured(m) == Some(x) && s.reader == SawDisk && 3 in w.failures
    requires x.images < TWO_TO_THE_63
    ensures Leads(s, FailNow(Numbered(s, x).(reader := SawImages(x.images))), w)
  {
    NumbersRun(s, m, x, w);
    LeadsThen(s, Numbered(s, x), Read, w);
    LeadsThen(s, Numbered(s, x).(reader := SawImages(x.images)), Fail, w);
  }

  /** The reader's last check passes once the status is ready. */
  lemma LastRead(s: State, image: long, w: World)
    requires s.reader == SawData(image) && s.p.ready && 0 < image <= w.total && 0 < w.d.data <= w.total - image
    ensures ReadNext(s, w) == s.(reader := Returned(image))
  {
    NoOverflow(w.total - image);
  }

  /** A refresh that reaches ready lets a reader that has its number return it. */
  lemma ReturnRun(s: State, m: Machine, x: Measurement, image: long, w: World)
    requires s.writer.Resting? && Measured(m) == Some(x) && s.reader == SawImages(image)
    requires 0 < image <= w.total && 0 < w.d.data <= w.total - image && x.data == w.d.data
    ensures Leads(s, Refreshed(s, x).(reader := Returned(image)), w)
  {
    ReadyRun(s, m, x, w);
    LeadsThen(s, Refreshed(s, x), Read, w);
    var s2 := Refreshed(s, x).(reader := SawData(image));
    LastRead(s2, image, w);
    LeadsThen(s, s2, Read, w);
  }

  /** A refresh reaches ready and is seen so; another fails while its number is read. */
  lemma FailureIsRead(good: Machine, failing: Machine, x: Measurement, y: Measurement, w: World) returns (s: State)
    requires Measured(good) == Some(x) && Measured(failing) == Some(y) && w.d.layout && 3 in w.failures
    requires x.disk == w.total && y.images < TWO_TO_THE_63
    ensures Leads(Initial(), s, w) && s.reader == SawImages(y.images) && s.writer.Resting? && s.completed == [x]
  {
    ChecksRun(Initial(), good, x, w);
    var s1 := Refreshed(Initial(), x).(reader := SawDisk);
    FailedRun(s1, failing, y, w);
    s := FailNow(Numbered(s1, y).(reader := SawImages(y.images)));
    LeadsJoin(Initial(), s1, s, w);
  }

  /** One more refresh reaches ready, and the reader's last check passes. */
  lemma FailedRefresh(good: Machine, failing: Machine, x: Measurement, y: Measurement, w: World) returns (s: State)
    requires Measured(good) == Some(x) && Measured(failing) == Some(y) && w.d.layout && 3 in w.failures
    requires x.disk == w.total && x.data == w.d.data && 0 < y.images && 0 < x.data <= w.total - y.images
    ensures Leads(Initial(), s, w) && s.reader == Returned(y.images) && s.completed == [x, x]
    ensures x.images != y.images ==> !In(y.images, s.completed)
  {
    var s1 := FailureIsRead(good, failing, x, y, w);
    ReturnRun(s1, good, x, y.images, w);
    s := Refreshed(s1, x).(reader := Returned(y.images));
    LeadsJoin(Initial(), s1, s, w);
  }

  /** Where refreshes may fail there, the reader can return the total of a refresh that never reached ready. */
  lemma FailedRefreshIsSeen(failures: set<nat>) returns (es: seq<Event>, s: State, w: World)
    requires 3 in failures
    ensures w.failures == failures && Reaches(Initial(), es, s, w)
    ensures s.reader.Returned? && s.reader.result > 0 && !In(s.reader.result, s.completed)
  {
    var good, failing, x, y := TwoMachines();
    w := World(Device(true, x.data, 0, 0), x.disk, failures);
    s := FailedRefresh(good, failing, x, y, w);
    es := RunTo(Initial(), s, w);
  }

  /** Two machines of the same disk and data that are measured, with totals that differ. */
  lemma TwoMachines() returns (good: Machine, failing: Machine, x: Measurement, y: Measurement)
    ensures Measured(good) == Some(x) && Measured(failing) == Some(y) && x.images != y.images
    ensures x.disk == y.disk < TWO_TO_THE_63 && x.data == y.data < TWO_TO_THE_63 && Sound(y)
  {
    SampleIsMeasured(1);
    SampleIsMeasured(2);
    good, failing := Sample(1), Sample(2);
    x, y := Measured(good).value, Measured(failing).value;
  }

  /** Every value a reader returns is the total of a refresh that reached ready. */
  ghost predicate ReadersAreRight(failures: set<nat>) {
    forall es, s, w ::
      Reaches(Initial(), es, s, w) && w.failures == failures && s.reader.Returned? && s.reader.result >= 0
      ==> In(s.reader.result, s.completed)
  }

  /** That holds of all readers in all runs exactly when no refresh can fail between its last number and ready. */
  lemma ReaderIsRightIff(failures: set<nat>)
    ensures ReadersAreRight(failures) <==> 3 !in failures
  {
    if 3 in failures {
      var es, s, w := FailedRefreshIsSeen(failures);
    } else {
      forall es, s, w
          | Reaches(Initial(), es, s, w) && w.failures == failures && s.reader.Returned? && s.reader.result >= 0
        ensures In(s.reader.result, s.completed)
      {
        ReaderIsRight(es, s, w);
      }
    }
  }
}
