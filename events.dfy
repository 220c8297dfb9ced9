/** The signals the conversion thread emits, as an event log: one event per
    file (progress after a file that converted, an error message after one
    that raised), then completion once. */
module Events {
  import opened Media
  import opened Decoders
  import opened Pipeline

  datatype Event = Progress(percent: int) | Error(message: string) | Finished

  /** The progress after the `i`-th of `total` files, as a whole percentage:
      between 0 and 100 while `i` counts files of the run, and 100 after the
      last one. */
  function Percent(i: nat, total: nat): (r: int)
    requires total > 0
    ensures i <= total ==> 0 <= r <= 100
    ensures i == total ==> r == 100
  {
    if i <= total then
      DivMonotone(i * 100, total * 100, total);
      DivExact(total, 100);
      i * 100 / total
    else
      i * 100 / total
  }

  /** How a path is written in a message: the name alone when there is no
      directory, joined to the directory by one separator otherwise. */
  function PathText(p: FilePath): (r: string)
    ensures |p.dir| + |p.name| <= |r| <= |p.dir| + |p.name| + 1
    ensures r[..|p.dir|] == p.dir && r[|r| - |p.name|..] == p.name
  {
    if p.dir == "" then p.name
    else if p.dir[|p.dir| - 1] == '/' then p.dir + p.name
    else p.dir + "/" + p.name
  }

  /** The message emitted when a file's conversion raises: a fixed opening,
      the path, and the reason at the end. */
  function FailureMessage(p: FilePath, reason: string): (m: string)
    ensures |m| == 32 + |PathText(p)| + 2 + |reason|
    ensures m[|m| - |reason|..] == reason
    ensures m[..32] == "Erreur lors de la conversion de "
    ensures m[32..32 + |PathText(p)|] == PathText(p)
  {
    "Erreur lors de la conversion de " + PathText(p) + ": " + reason
  }

  /** What converting one file reports: its path, and the error its
      conversion raised, if any. */
  datatype Report = Report(path: FilePath, error: Option<string>)

  /** The report of every file, in order. */
  function Reports(files: seq<InputFile>): (r: seq<Report>)
    ensures |r| == |files|
    ensures forall j {:trigger r[j]} :: 0 <= j < |files| ==> r[j] == Report(files[j].path, FileError(files[j]))
  {
    seq(|files|, j requires 0 <= j < |files| => Report(files[j].path, FileError(files[j])))
  }

  /** The event emitted for report `i` (counting from 0). */
  function EventFor(reports: seq<Report>, i: nat): Event
    requires i < |reports|
  {
    match reports[i].error
    case Some(reason) => Error(FailureMessage(reports[i].path, reason))
    case None => Progress(Percent(i + 1, |reports|))
  }

  /** The events emitted for the first `k` reports. */
  function LoopEvents(reports: seq<Report>, k: nat): (r: seq<Event>)
    requires k <= |reports|
    ensures |r| == k
    ensures forall j {:trigger r[j]} :: 0 <= j < k ==> r[j] == EventFor(reports, j)
  {
    seq(k, j requires 0 <= j < k => EventFor(reports, j))
  }

  /** One more report appends its event. */
  lemma LoopEventsSnoc(reports: seq<Report>, k: nat)
    requires k < |reports|
    ensures LoopEvents(reports, k + 1) == LoopEvents(reports, k) + [EventFor(reports, k)]
  {
    assert LoopEvents(reports, k + 1)[..k] == LoopEvents(reports, k);
  }

  /** Every event a run over these reports emits. */
  function EventsOf(reports: seq<Report>): (r: seq<Event>)
    ensures |r| == |reports| + 1
  {
    LoopEvents(reports, |reports|) + [Finished]
  }

  /** Every event a run over these files emits. */
  function ExpectedEvents(files: seq<InputFile>): (r: seq<Event>)
    ensures |r| == |files| + 1
  {
    EventsOf(Reports(files))
  }

  /** `finished` is emitted exactly once, as the last event, after one event
      per file. */
  lemma FinishedOnceAtEnd(reports: seq<Report>)
    ensures |EventsOf(reports)| == |reports| + 1
    ensures EventsOf(reports)[|reports|] == Finished
    ensures forall j :: 0 <= j < |reports| ==> !EventsOf(reports)[j].Finished?
  {
    forall j | 0 <= j < |reports| ensures !EventsOf(reports)[j].Finished? {
      assert EventsOf(reports)[j] == EventFor(reports, j);
    }
  }

  /** The event of file `j` is an error exactly when its conversion raised,
      and then it names the file and the reason; otherwise it is the
      progress `(j + 1) * 100 / total`. */
  lemma EventPerFile(reports: seq<Report>, j: nat)
    requires j < |reports|
    ensures EventsOf(reports)[j].Error? <==> reports[j].error.Some?
    ensures reports[j].error.Some? ==>
              EventsOf(reports)[j] == Error(FailureMessage(reports[j].path, reports[j].error.value))
    ensures reports[j].error.None? ==>
              EventsOf(reports)[j] == Progress(Percent(j + 1, |reports|))
  {
    assert EventsOf(reports)[j] == EventFor(reports, j);
  }

  /** The same, for the files of a run. */
  lemma EventPerInputFile(files: seq<InputFile>, j: nat)
    requires j < |files|
    ensures ExpectedEvents(files)[j].Error? <==> FileError(files[j]).Some?
    ensures FileError(files[j]).Some? ==>
              ExpectedEvents(files)[j] == Error(FailureMessage(files[j].path, FileError(files[j]).value))
    ensures FileError(files[j]).None? ==>
              ExpectedEvents(files)[j] == Progress(Percent(j + 1, |files|))
  {
    EventPerFile(Reports(files), j);
  }

  lemma DivMonotone(a: int, b: int, d: int)
    requires 0 <= a <= b && d > 0
    ensures a / d <= b / d
  {
    if a / d > b / d {
      var qa, qb := a / d, b / d;
      assert d * qa + a % d == a;
      assert d * qb + b % d == b;
      MultiplyMonotone(d, qb + 1, qa);
    }
  }

  lemma MultiplyMonotone(d: int, x: int, y: int)
    requires d > 0 && x <= y
    ensures d * x <= d * y
  {
  }

  lemma DivExact(n: int, c: int)
    requires n > 0
    ensures (n * c) / n == c
  {
    var q, r := (n * c) / n, (n * c) % n;
    assert n * q + r == n * c;
    assert n * (c - q) == r;
    if q < c {
      MultiplyMonotone(n, 1, c - q);
    } else if q > c {
      MultiplyMonotone(n, c - q, -1);
    }
  }

  /** Progress percentages stay between 0 and 100, grow with the file
      count, and reach 100 at the last file. */
  lemma PercentBounds(i: nat, j: nat, total: nat)
    requires i <= j <= total && total > 0
    ensures 0 <= Percent(i, total) <= Percent(j, total) <= 100
    ensures Percent(total, total) == 100
  {
    DivMonotone(i * 100, j * 100, total);
    DivMonotone(j * 100, total * 100, total);
    DivExact(total, 100);
  }

  /** The progress values of a run lie between 0 and 100 and never decrease. */
  lemma ProgressNonDecreasing(reports: seq<Report>, a: nat, b: nat)
    requires a < b < |reports|
    requires EventsOf(reports)[a].Progress? && EventsOf(reports)[b].Progress?
    ensures 0 <= EventsOf(reports)[a].percent <= EventsOf(reports)[b].percent <= 100
  {
    EventPerFile(reports, a);
    EventPerFile(reports, b);
    PercentBounds(a + 1, b + 1, |reports|);
  }

  /** When the last file converts, the last progress emitted is 100. */
  lemma CompletesAtHundred(reports: seq<Report>)
    requires |reports| > 0 && reports[|reports| - 1].error.None?
    ensures EventsOf(reports)[|reports| - 1] == Progress(100)
  {
    EventPerFile(reports, |reports| - 1);
    PercentBounds(|reports|, |reports|, |reports|);
  }
}
