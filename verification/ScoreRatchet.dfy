/**
 The raise-only merge of behavioural-score floors and the one-shot migration
 around it (tools/migrate_proof_index_storage.py), with the JSONL storage that
 normalises records on both sides (common/testing/jsonl_baseline.py).
 */
module ScoreRatchet {
  import opened Wrappers

  // ---- rounding to the 6-decimal grid ----

  /** Round to the nearest integer, ties to the even one. */
  function HalfEven(x: real): int {
    var n := x.Floor;
    var rest := x - n as real;
    if rest < 0.5 || (rest == 0.5 && n % 2 == 0) then n else n + 1
  }

  const UNIT: real := 1000000.0

  /** `round(x, 6)` */
  function Round6(x: real): real {
    HalfEven(x * UNIT) as real / UNIT
  }

  predicate OnGrid(x: real) {
    Round6(x) == x
  }

  /** So many millionths are nearest to a number, and from halfway the even ones. */
  predicate IsNearest(millionths: int, x: real) {
    var gap := x * 1000000.0 - millionths as real;
    -0.5 <= gap <= 0.5 && (gap == 0.5 || gap == -0.5 ==> millionths % 2 == 0)
  }

  lemma Round6IsNearest(x: real)
    ensures exists n: int :: IsNearest(n, x) && n as real / 1000000.0 == Round6(x)
  {
    var n := HalfEven(x * UNIT);
    assert UNIT == 1000000.0;
    assert IsNearest(n, x);
  }

  lemma HalfEvenMonotone(x: real, y: real)
    requires x <= y
    ensures HalfEven(x) <= HalfEven(y)
  {
    assert x.Floor <= y.Floor;
    if x.Floor < y.Floor {
      assert HalfEven(x) <= x.Floor + 1 <= y.Floor <= HalfEven(y);
    }
  }

  lemma HalfEvenOfInt(n: int)
    ensures HalfEven(n as real) == n
  {
  }

  lemma Round6Monotone(x: real, y: real)
    requires x <= y
    ensures Round6(x) <= Round6(y)
  {
    HalfEvenMonotone(x * UNIT, y * UNIT);
  }

  lemma Round6OnGrid(x: real)
    ensures OnGrid(Round6(x))
  {
    HalfEvenOfInt(HalfEven(x * UNIT));
    assert Round6(x) * UNIT == HalfEven(x * UNIT) as real;
  }

  // ---- the merge ----

  /** One AC's record; a missing field reads as its default. */
  datatype Record = Record(score: Option<real>, metric: Option<string>, provenance: Option<string>) {
    function Score(): real { if score.Some? then score.value else 0.0 }
    function Metric(): string { if metric.Some? then metric.value else "" }
    function Provenance(): string { if provenance.Some? then provenance.value else "" }

    /** What is stored for a record: a rounded score and explicit fields. */
    function Normal(): Record {
      Record(Some(Round6(Score())), Some(Metric()), Some(Provenance()))
    }
  }

  type Acs = map<string, Record>

  function MergeOne(prev: Option<Record>, record: Record): Record {
    if prev.Some? && record.Score() <= prev.value.Score() then prev.value else record.Normal()
  }

  function Lookup(acs: Acs, ac: string): Option<Record> {
    if ac in acs then Some(acs[ac]) else None
  }

  /** The merge, AC by AC. */
  function Merged(existing: Acs, incoming: Acs): Acs {
    map ac | ac in existing.Keys + incoming.Keys ::
      if ac in incoming then MergeOne(Lookup(existing, ac), incoming[ac]) else existing[ac]
  }

  /** `_raise_only_merge`; the entries may come in any order. */
  method RaiseOnlyMerge(existing: Acs, incoming: Acs) returns (merged: Acs)
    ensures merged == Merged(existing, incoming)
  {
    merged := existing;
    var todo := incoming.Keys;
    while todo != {}
      invariant todo <= incoming.Keys
      invariant merged.Keys == existing.Keys + (incoming.Keys - todo)
      invariant forall ac <- merged ::
                  merged[ac] == if ac in incoming && ac !in todo then MergeOne(Lookup(existing, ac), incoming[ac]) else existing[ac]
    {
      var ac :| ac in todo;
      todo := todo - {ac};
      var record := incoming[ac];
      var score := record.Score();
      if !(ac in merged && score <= merged[ac].Score()) {
        merged := merged[ac := Record(Some(Round6(score)), Some(record.Metric()), Some(record.Provenance()))];
      }
    }
  }

  ghost predicate GridFloors(acs: Acs) {
    forall ac <- acs :: OnGrid(acs[ac].Score())
  }

  function Max(x: real, y: real): real {
    if x >= y then x else y
  }

  /** Per AC the merge is a join: floors on the grid never drop, whatever rounding does to the incoming score. */
  lemma MergeIsJoin(existing: Acs, incoming: Acs)
    requires GridFloors(existing)
    ensures var merged := Merged(existing, incoming);
            && merged.Keys == existing.Keys + incoming.Keys
            && GridFloors(merged)
            && (forall ac <- existing.Keys * incoming.Keys ::
                  merged[ac].Score() == Max(existing[ac].Score(), Round6(incoming[ac].Score())))
            && (forall ac <- incoming.Keys - existing.Keys :: merged[ac].Score() == Round6(incoming[ac].Score()))
            && (forall ac <- existing.Keys ::
                  (ac !in incoming || incoming[ac].Score() <= existing[ac].Score()) ==> merged[ac] == existing[ac])
            && (forall ac <- incoming.Keys ::
                  (ac !in existing || incoming[ac].Score() > existing[ac].Score()) ==>
                    merged[ac].metric == Some(incoming[ac].Metric()) && merged[ac].provenance == Some(incoming[ac].Provenance()))
  {
    var merged := Merged(existing, incoming);
    forall ac | ac in merged
      ensures OnGrid(merged[ac].Score())
      ensures ac in existing.Keys * incoming.Keys ==>
                merged[ac].Score() == Max(existing[ac].Score(), Round6(incoming[ac].Score()))
    {
      if ac in incoming {
        Round6OnGrid(incoming[ac].Score());
        if ac in existing {
          if incoming[ac].Score() <= existing[ac].Score() {
            Round6Monotone(incoming[ac].Score(), existing[ac].Score());
          } else {
            Round6Monotone(existing[ac].Score(), incoming[ac].Score());
          }
        }
      }
    }
  }

  /** How far a score lies above the grid point below it, in grid units. */
  function GridRest(x: real): real {
    x * UNIT - (x * UNIT).Floor as real
  }

  /** The floor an incoming score leaves over an existing one. */
  function MergedFloor(floor: real, score: real): real {
    MergeOne(Some(Record(Some(floor), None, None)), Record(Some(score), None, None)).Score()
  }

  /** A floor off the grid can drop exactly when it lies in the lower half of its grid cell. */
  lemma FloorDropsOffGrid(floor: real)
    ensures (forall score :: MergedFloor(floor, score) >= floor) <==> !(0.0 < GridRest(floor) < 0.5)
  {
    var n := (floor * UNIT).Floor;
    if 0.0 < GridRest(floor) < 0.5 {
      var scaled := (floor * UNIT + (n as real + 0.5)) / 2.0;
      var score := scaled / UNIT;
      assert score * UNIT == scaled;
      assert scaled.Floor == n;
      assert score > floor && Round6(score) < floor;
      assert MergedFloor(floor, score) < floor;
    } else {
      forall score ensures MergedFloor(floor, score) >= floor {
        if score > floor {
          Round6Monotone(floor, score);
          if GridRest(floor) == 0.5 {
            HalfUp(floor * UNIT, score * UNIT);
          }
        }
      }
    }
  }

  lemma HalfUp(x: real, y: real)
    requires x - x.Floor as real == 0.5 && x < y
    ensures HalfEven(y) >= x.Floor + 1
  {
  }

  /** A floor rises exactly when the incoming score is still higher once rounded. */
  lemma RaiseIsRounded(prev: Record, record: Record)
    requires OnGrid(prev.Score())
    ensures MergeOne(Some(prev), record).Score() > prev.Score() <==> Round6(record.Score()) > prev.Score()
  {
    if prev.Score() < record.Score() {
      Round6OnGrid(record.Score());
    } else {
      Round6Monotone(record.Score(), prev.Score());
    }
  }

  /** A strictly higher score that rounds back to the floor replaces the record and raises nothing. */
  lemma ReplacedWithoutRaise()
    ensures var prev := Record(Some(0.5), Some("coverage"), Some("main"));
            var record := Record(Some(0.5000001), Some("coverage"), Some("sibling"));
            && OnGrid(prev.Score()) && record.Score() > prev.Score()
            && MergeOne(Some(prev), record) == prev.(provenance := Some("sibling"))
  {
    HalfEvenOfInt(500000);
    assert (0.5000001 * UNIT).Floor == 500000;
  }

  // ---- successive folds ----

  function Fold(existing: Acs, waves: seq<Acs>): Acs
    decreases |waves|
  {
    if waves == [] then existing else Fold(Merged(existing, waves[0]), waves[1..])
  }

  /** The scores that compete for one AC's floor. */
  ghost predicate Competes(existing: Acs, waves: seq<Acs>, ac: string, x: real) {
    || (ac in existing && x == existing[ac].Score())
    || exists wave: Acs <- waves :: ac in wave && x == Round6(wave[ac].Score())
  }

  /** After any number of folds a floor is the highest of the scores that compete for it. */
  lemma {:induction false} FoldIsMaximum(existing: Acs, waves: seq<Acs>, ac: string)
    requires GridFloors(existing)
    ensures GridFloors(Fold(existing, waves))
    ensures ac in Fold(existing, waves) <==> exists x :: Competes(existing, waves, ac, x)
    ensures ac in Fold(existing, waves) ==>
              && Competes(existing, waves, ac, Fold(existing, waves)[ac].Score())
              && forall x :: Competes(existing, waves, ac, x) ==> x <= Fold(existing, waves)[ac].Score()
    decreases |waves|
  {
    if waves == [] {
      assert ac in existing ==> Competes(existing, waves, ac, existing[ac].Score());
    } else {
      var merged := Merged(existing, waves[0]);
      MergeIsJoin(existing, waves[0]);
      FoldIsMaximum(merged, waves[1..], ac);
      CompetesStep(existing, waves, ac);
    }
  }

  lemma CompetesStep(existing: Acs, waves: seq<Acs>, ac: string)
    requires GridFloors(existing) && waves != []
    ensures forall x :: Competes(Merged(existing, waves[0]), waves[1..], ac, x) ==> Competes(existing, waves, ac, x)
    ensures forall x :: Competes(existing, waves, ac, x) ==>
              exists y :: x <= y && Competes(Merged(existing, waves[0]), waves[1..], ac, y)
  {
    var merged := Merged(existing, waves[0]);
    MergeIsJoin(existing, waves[0]);
    assert waves == [waves[0]] + waves[1..];
    forall x | Competes(merged, waves[1..], ac, x) ensures Competes(existing, waves, ac, x) {
    }
    forall x | Competes(existing, waves, ac, x)
      ensures exists y :: x <= y && Competes(merged, waves[1..], ac, y)
    {
      if !Competes(merged, waves[1..], ac, x) {
        assert x <= merged[ac].Score() && Competes(merged, waves[1..], ac, merged[ac].Score());
      }
    }
  }

  /** The order in which baselines are folded in does not matter for the floors. */
  lemma FoldOrderIrrelevant(existing: Acs, waves: seq<Acs>, other: seq<Acs>, ac: string)
    requires GridFloors(existing) && (forall wave :: wave in waves <==> wave in other)
    ensures ac in Fold(existing, waves) <==> ac in Fold(existing, other)
    ensures ac in Fold(existing, waves) ==> Fold(existing, waves)[ac].Score() == Fold(existing, other)[ac].Score()
  {
    FoldIsMaximum(existing, waves, ac);
    FoldIsMaximum(existing, other, ac);
    assert forall x :: Competes(existing, waves, ac, x) <==> Competes(existing, other, ac, x);
  }

  /** Merging the same baseline again changes nothing, not even metric or provenance. */
  lemma MergeIdempotent(existing: Acs, incoming: Acs)
    ensures Merged(Merged(existing, incoming), incoming) == Merged(existing, incoming)
  {
  }

  // ---- the migration ----

  /** The legacy file: gone, not a JSON object, or an object with an "acs" mapping. */
  datatype Legacy = Absent | NotAnObject | Object(acs: Acs)

  datatype Disk = Disk(jsonl: Option<Acs>, legacy: Legacy)

  /** Where a run stops. */
  datatype Stop = BeforeWrite | BeforeUnlink | Completed

  /** `write_jsonl` and `load_jsonl` both normalise every record. */
  function Normalised(acs: Acs): Acs {
    map ac | ac in acs :: acs[ac].Normal()
  }

  function Loaded(disk: Disk): Acs {
    if disk.jsonl.Some? then Normalised(disk.jsonl.value) else map[]
  }

  function Incoming(disk: Disk): Acs {
    if disk.legacy.Object? then disk.legacy.acs else map[]
  }

  function Migrated(disk: Disk): Acs {
    Normalised(Merged(Loaded(disk), Incoming(disk)))
  }

  function Step(disk: Disk, stop: Stop): Disk {
    match stop
    case BeforeWrite => disk
    case BeforeUnlink => Disk(Some(Migrated(disk)), disk.legacy)
    case Completed => Disk(Some(Migrated(disk)), Absent)
  }

  class Repository {
    var jsonl: Option<Acs>
    var legacy: Legacy

    constructor (jsonl: Option<Acs>, legacy: Legacy)
      ensures this.jsonl == jsonl && this.legacy == legacy
    {
      this.jsonl, this.legacy := jsonl, legacy;
    }

    /** `migrate_baseline`, cut short at `stop`. */
    method MigrateBaseline(stop: Stop)
      modifies this
      ensures Disk(jsonl, legacy) == Step(old(Disk(jsonl, legacy)), stop)
    {
      var existing: Acs := map[];
      if jsonl.Some? {
        existing := Normalised(jsonl.value);
      }
      var incoming: Acs := map[];
      if legacy != Absent {
        incoming := if legacy.Object? then legacy.acs else map[];
      }
      var merged := RaiseOnlyMerge(existing, incoming);
      if stop == BeforeWrite {
        return;
      }
      jsonl := Some(Normalised(merged));
      if stop == BeforeUnlink {
        return;
      }
      if legacy != Absent {
        legacy := Absent;
      }
    }
  }

  function Runs(disk: Disk, stops: seq<Stop>): Disk
    decreases |stops|
  {
    if stops == [] then disk else Runs(Step(disk, stops[0]), stops[1..])
  }

  lemma NormalTwice(acs: Acs)
    ensures Normalised(Normalised(acs)) == Normalised(acs)
  {
    forall ac | ac in acs ensures acs[ac].Normal().Normal() == acs[ac].Normal() {
      Round6OnGrid(acs[ac].Score());
    }
  }

  lemma MergedIsNormal(existing: Acs, incoming: Acs)
    requires Normalised(existing) == existing
    ensures Normalised(Merged(existing, incoming)) == Merged(existing, incoming)
  {
    var merged := Merged(existing, incoming);
    forall ac | ac in merged ensures merged[ac].Normal() == merged[ac] {
      if ac in existing { assert Normalised(existing)[ac] == existing[ac]; }
      if ac in incoming { Round6OnGrid(incoming[ac].Score()); }
    }
  }

  /** A run that stops early leaves a complete run with the same result as before. */
  lemma StopsAreHarmless(disk: Disk, stop: Stop)
    ensures Step(Step(disk, stop), Completed) == Step(disk, Completed)
  {
    if disk.jsonl.Some? { NormalTwice(disk.jsonl.value); }
    var existing, incoming := Loaded(disk), Incoming(disk);
    assert Normalised(existing) == existing;
    MergedIsNormal(existing, incoming);
    MergeIdempotent(existing, incoming);
    NormalTwice(Merged(existing, incoming));
    assert Merged(Migrated(disk), map[]) == Migrated(disk);
  }

  /** Any number of interrupted or repeated runs with one complete run among them ends as that one run alone. */
  lemma {:induction false} CrashTolerance(disk: Disk, stops: seq<Stop>)
    ensures Step(Runs(disk, stops), Completed) == Step(disk, Completed)
    ensures Completed in stops ==> Runs(disk, stops) == Step(disk, Completed)
    decreases |stops|
  {
    if stops != [] {
      var next := Step(disk, stops[0]);
      StopsAreHarmless(disk, stops[0]);
      CrashTolerance(next, stops[1..]);
      if stops[0] == Completed { AfterCompletion(disk, stops[1..]); }
    }
  }

  lemma {:induction false} AfterCompletion(disk: Disk, stops: seq<Stop>)
    ensures Runs(Step(disk, Completed), stops) == Step(disk, Completed)
  {
    if stops != [] {
      var done := Step(disk, Completed);
      NormalTwice(Merged(Loaded(disk), Incoming(disk)));
      assert Merged(Migrated(disk), map[]) == Migrated(disk);
      assert Step(done, stops[0]) == done;
      AfterCompletion(disk, stops[1..]);
    }
  }

  // ---- what arrives ----

  /** One AC's floor on disk before a run: what the JSONL file and the legacy file hold for it. */
  function OldRecord(disk: Disk, ac: string): Option<Record> {
    if disk.jsonl.Some? then Lookup(disk.jsonl.value, ac) else None
  }

  function LegacyRecord(disk: Disk, ac: string): Option<Record> {
    if disk.legacy.Object? then Lookup(disk.legacy.acs, ac) else None
  }

  function OrElse<T>(o: Option<T>, default: T): T {
    if o.Some? then o.value else default
  }

  /** A stored floor: its score on the grid, a missing one counting as zero. */
  function StoredScore(r: Record): real {
    Round6(OrElse(r.score, 0.0))
  }

  /** What the file must hold for an AC: the higher of the two floors, with the words that go with it. */
  ghost predicate Arrives(old_: Option<Record>, legacy: Option<Record>, now: Record) {
    var kept := old_.Some? && (legacy.None? || OrElse(legacy.value.score, 0.0) <= StoredScore(old_.value));
    && (old_.Some? || legacy.Some?)
    && (var words := if kept then old_.value else legacy.value;
        now.metric == Some(OrElse(words.metric, "")) && now.provenance == Some(OrElse(words.provenance, "")))
    && now.score.Some?
    && (old_.Some? && legacy.Some? ==> now.score.value == Max(StoredScore(old_.value), StoredScore(legacy.value)))
    && (old_.Some? && legacy.None? ==> now.score.value == StoredScore(old_.value))
    && (old_.None? && legacy.Some? ==> now.score.value == StoredScore(legacy.value))
  }

  /**
   After a run that wrote, the JSONL file holds the ACs of both files, each
   with the higher of its two rounded scores; the legacy file goes last, and
   before the write nothing has changed.
   */
  lemma MigrationArrives(disk: Disk, stop: Stop)
    ensures var after := Step(disk, stop);
            && (stop == BeforeWrite ==> after == disk)
            && after.legacy == (if stop == Completed then Absent else disk.legacy)
            && (stop != BeforeWrite ==>
                  && after.jsonl.Some?
                  && (forall ac :: ac in after.jsonl.value <==> OldRecord(disk, ac).Some? || LegacyRecord(disk, ac).Some?)
                  && forall ac <- after.jsonl.value ::
                       Arrives(OldRecord(disk, ac), LegacyRecord(disk, ac), after.jsonl.value[ac]))
  {
    if stop != BeforeWrite {
      var after := Step(disk, stop).jsonl.value;
      forall ac | ac in after ensures Arrives(OldRecord(disk, ac), LegacyRecord(disk, ac), after[ac]) {
        ArrivesOne(OldRecord(disk, ac), LegacyRecord(disk, ac));
      }
    }
  }

  /** Merging one record into the loaded one, and storing the result. */
  lemma ArrivesOne(old_: Option<Record>, legacy: Option<Record>)
    requires old_.Some? || legacy.Some?
    ensures var loaded := if old_.Some? then Some(old_.value.Normal()) else None;
            Arrives(old_, legacy, (if legacy.Some? then MergeOne(loaded, legacy.value) else loaded.value).Normal())
  {
    if old_.Some? {
      Round6OnGrid(old_.value.Score());
      if legacy.Some? {
        Round6OnGrid(legacy.value.Score());
        if legacy.value.Score() <= Round6(old_.value.Score()) {
          Round6Monotone(legacy.value.Score(), Round6(old_.value.Score()));
        } else {
          Round6Monotone(Round6(old_.value.Score()), legacy.value.Score());
        }
      }
    } else {
      Round6OnGrid(legacy.value.Score());
    }
  }
}
