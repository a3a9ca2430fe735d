/**
 * The series fetcher's pure part (script.js `fetchData`): the HTTP request and
 * JSON decoding are replaced by a `Response` parameter; what is modelled is
 * the failure on a non-ok status and the filter/sort/map of the entries.
 */
module Series {
  import opened Wrappers

  /** A year token of the API; its decimal text is what labels show. */
  type Year = nat

  /** One entry of the payload's data array: a date and a value that may be null. */
  datatype Entry = Entry(date: Year, value: Option<real>)

  /**
   * What the transport delivered: a non-ok status, or an ok body whose data
   * array (the second element of the payload) may be missing.
   */
  datatype Response = NotOk | Ok(data: Option<seq<Entry>>)

  datatype FetchError = NetworkError

  /** Parallel years and values, as the fetcher returns them. */
  datatype TimeSeries = TimeSeries(years: seq<Year>, values: seq<real>)

  predicate Parallel(s: TimeSeries) {
    |s.years| == |s.values|
  }

  predicate IsDigits(s: string) {
    forall i :: 0 <= i < |s| ==> '0' <= s[i] <= '9'
  }

  /** The number a string of decimal digits denotes, most significant digit first. */
  function DigitsValue(s: string): nat
    requires IsDigits(s)
  {
    if s == [] then 0
    else DigitsValue(s[..|s| - 1]) * 10 + (s[|s| - 1] as int - '0' as int)
  }

  /**
   * `String(year)`: the decimal text of a year, as labels show it. It has no
   * leading zero, and reading it back as a decimal number gives the year again.
   */
  function YearText(y: Year): (r: string)
    ensures |r| >= 1 && IsDigits(r)
    ensures |r| > 1 ==> r[0] != '0'
    ensures DigitsValue(r) == y
  {
    var d := ('0' as int + y % 10) as char;
    if y < 10 then [d]
    else
      var prefix := YearText(y / 10);
      assert (prefix + [d])[..|prefix|] == prefix;
      prefix + [d]
  }

  /** Non-decreasing by year. */
  predicate SortedByYear(es: seq<Entry>) {
    forall i, j :: 0 <= i < j < |es| ==> es[i].date <= es[j].date
  }

  /** The filter step: keeps the entries whose value is not null, in their order. */
  function Present(es: seq<Entry>): (r: seq<Entry>)
    ensures forall i :: 0 <= i < |r| ==> r[i].value.Some?
  {
    if es == [] then []
    else (if es[0].value.Some? then [es[0]] else []) + Present(es[1..])
  }

  /** The filter keeps each non-null entry exactly as often as the payload holds it, and no other. */
  lemma {:induction false} PresentCounts(es: seq<Entry>, e: Entry)
    ensures multiset(Present(es))[e] == if e.value.Some? then multiset(es)[e] else 0
  {
    if es != [] {
      PresentCounts(es[1..], e);
      assert es == [es[0]] + es[1..];
    }
  }

  /**
   * Inserts `e` into a sorted sequence after every entry whose year is not
   * larger, which is what keeps the sort stable.
   */
  function Insert(e: Entry, s: seq<Entry>): (r: seq<Entry>)
    requires SortedByYear(s)
    ensures SortedByYear(r)
    ensures multiset(r) == multiset(s) + multiset{e}
    ensures |r| > 0 && (r[0] == e || (|s| > 0 && r[0] == s[0]))
  {
    if s == [] then [e]
    else if e.date < s[0].date then [e] + s
    else
      var tail := Insert(e, s[1..]);
      assert s == [s[0]] + s[1..];
      [s[0]] + tail
  }

  /** The sort step: orders the entries by year ascending, inserting each after the equal years already placed. */
  function SortByYear(es: seq<Entry>): (r: seq<Entry>)
    ensures SortedByYear(r)
    ensures multiset(r) == multiset(es)
  {
    if es == [] then []
    else
      assert es == es[..|es| - 1] + [es[|es| - 1]];
      Insert(es[|es| - 1], SortByYear(es[..|es| - 1]))
  }

  /** The two `map` steps: split present entries into parallel years and values. */
  function Split(es: seq<Entry>): (r: TimeSeries)
    requires forall i :: 0 <= i < |es| ==> es[i].value.Some?
    ensures Parallel(r) && |r.years| == |es|
    ensures forall i :: 0 <= i < |es| ==> es[i] == Entry(r.years[i], Some(r.values[i]))
  {
    TimeSeries(seq(|es|, i requires 0 <= i < |es| => es[i].date),
               seq(|es|, i requires 0 <= i < |es| => es[i].value.value))
  }

  /** The entries a series stands for, each value present. */
  function Entries(s: TimeSeries): (r: seq<Entry>)
    requires Parallel(s)
    ensures |r| == |s.years|
  {
    seq(|s.years|, i requires 0 <= i < |s.years| => Entry(s.years[i], Some(s.values[i])))
  }

  /**
   * The cleaned series: ascending years, and its entries are the payload's
   * non-null entries, each exactly as often as in the payload.
   */
  function Clean(es: seq<Entry>): (r: TimeSeries)
    ensures Parallel(r)
    ensures forall i, j :: 0 <= i < j < |r.years| ==> r.years[i] <= r.years[j]
    ensures forall e :: multiset(Entries(r))[e] == if e.value.Some? then multiset(es)[e] else 0
  {
    var present := Present(es);
    var sorted := SortByYear(present);
    assert forall i :: 0 <= i < |sorted| ==> sorted[i].value.Some? by {
      forall i | 0 <= i < |sorted| ensures sorted[i].value.Some? {
        assert sorted[i] in multiset(sorted);
      }
    }
    var r := Split(sorted);
    assert Entries(r) == sorted;
    assert forall e :: multiset(present)[e] == if e.value.Some? then multiset(es)[e] else 0 by {
      forall e { PresentCounts(es, e); }
    }
    r
  }

  /**
   * `fetchData`: a non-ok status throws; a body without a data array gives an
   * empty series; otherwise the cleaned entries.
   */
  function FetchData(resp: Response): (r: Result<TimeSeries, FetchError>)
    ensures r.Failure? <==> resp.NotOk?
    ensures r.Success? ==> Parallel(r.value)
    ensures resp == Ok(None) ==> r == Success(TimeSeries([], []))
    ensures resp.Ok? && resp.data.Some? ==> r == Success(Clean(resp.data.value))
  {
    match resp
    case NotOk => Failure(NetworkError)
    case Ok(None) => Success(TimeSeries([], []))
    case Ok(Some(es)) => Success(Clean(es))
  }

  /** Inserting an entry no earlier than every other one appends it. */
  lemma {:induction false} InsertLast(e: Entry, s: seq<Entry>)
    requires SortedByYear(s)
    requires forall i :: 0 <= i < |s| ==> s[i].date <= e.date
    ensures Insert(e, s) == s + [e]
  {
    if s != [] {
      InsertLast(e, s[1..]);
      assert s == [s[0]] + s[1..];
    }
  }

  /** Sorting an already sorted sequence changes nothing. */
  lemma {:induction false} SortSortedIsIdentity(es: seq<Entry>)
    requires SortedByYear(es)
    ensures SortByYear(es) == es
  {
    if es != [] {
      var init := es[..|es| - 1];
      assert SortedByYear(init);
      SortSortedIsIdentity(init);
      InsertLast(es[|es| - 1], init);
      assert init + [es[|es| - 1]] == es;
    }
  }

  /** Filtering a sequence without nulls changes nothing. */
  lemma {:induction false} PresentOfPresentIsIdentity(es: seq<Entry>)
    requires forall i :: 0 <= i < |es| ==> es[i].value.Some?
    ensures Present(es) == es
  {
    if es != [] {
      PresentOfPresentIsIdentity(es[1..]);
      assert [es[0]] + es[1..] == es;
    }
  }

  /** Splitting the entries of a series gives the series back. */
  lemma SplitEntries(s: TimeSeries)
    requires Parallel(s)
    ensures Split(Entries(s)) == s
  {
  }

  /** Cleaning is idempotent: a cleaned series survives a second cleaning unchanged. */
  lemma CleanIsIdempotent(es: seq<Entry>)
    ensures Clean(Entries(Clean(es))) == Clean(es)
  {
    var c := Clean(es);
    var cs := Entries(c);
    PresentOfPresentIsIdentity(cs);
    assert SortedByYear(cs);
    SortSortedIsIdentity(cs);
    SplitEntries(c);
  }
}
