/** Table discovery, `ECourtsScraper.wait_for_table`: poll the page, trying
    a fixed list of table selectors in order, until one finds a table that
    has a row (or whose rows cannot be read), or the timeout passes. */
module TableWait {
  import opened PyText
  import opened TableParse

  /** A located table element: its rows, or `Unreadable` when asking it for
      its `tr` elements raises. */
  datatype Table = Readable(rows: seq<Row>) | Unreadable

  /** What one selector finds during one poll. */
  datatype Probe = Absent | Present(table: Table)

  /** One poll: what each selector of `TableSelectors` finds, in the same
      order; selectors past the end of the sequence find nothing. */
  type Poll = seq<Probe>

  /** The selectors, in the order they are tried. */
  const TableSelectors: seq<string> := [
    "id=resultTable",
    "id=result_table",
    "id=result",
    "css=table#resultTable",
    "xpath=//table[contains(@id,'result') or contains(@class,'result') or contains(@class,'cause')]",
    "tag=table"
  ]

  function ProbeAt(poll: Poll, s: nat): Probe {
    if s < |poll| && s < |TableSelectors| then poll[s] else Absent
  }

  /** Whether the poll loop returns what this probe found: a table with at
      least one row, or one whose rows could not be read. */
  predicate Accepts(p: Probe) {
    p.Present? && (p.table.Unreadable? || |p.table.rows| >= 1)
  }

  /** The table the selectors from `s` on return during one poll. */
  function FirstInPoll(poll: Poll, s: nat): (r: Option<Table>)
    requires s <= |TableSelectors|
    ensures r.Some? ==> exists t :: (s <= t < |TableSelectors| && Accepts(ProbeAt(poll, t))
      && r.value == ProbeAt(poll, t).table && forall u :: s <= u < t ==> !Accepts(ProbeAt(poll, u)))
    ensures r.None? ==> forall t :: s <= t < |TableSelectors| ==> !Accepts(ProbeAt(poll, t))
    decreases |TableSelectors| - s
  {
    if s == |TableSelectors| then None
    else if Accepts(ProbeAt(poll, s)) then Some(ProbeAt(poll, s).table)
    else FirstInPoll(poll, s + 1)
  }

  /** The table found by the first of `polls` in which some selector finds
      an acceptable table. */
  function FoundTable(polls: seq<Poll>): Option<Table> {
    if polls == [] then None
    else if FirstInPoll(polls[0], 0).Some? then FirstInPoll(polls[0], 0)
    else FoundTable(polls[1..])
  }

  /** `FoundTable` is the lexicographically first (poll, selector) hit. */
  lemma {:induction false} FoundTableIsFirstHit(polls: seq<Poll>)
    ensures FoundTable(polls).None? <==>
      forall p, s :: 0 <= p < |polls| && 0 <= s < |TableSelectors| ==> !Accepts(ProbeAt(polls[p], s))
    ensures FoundTable(polls).Some? ==> exists p, s ::
      && 0 <= p < |polls| && 0 <= s < |TableSelectors|
      && Accepts(ProbeAt(polls[p], s))
      && FoundTable(polls).value == ProbeAt(polls[p], s).table
      && (forall q, u :: 0 <= q < p && 0 <= u < |TableSelectors| ==> !Accepts(ProbeAt(polls[q], u)))
      && (forall u :: 0 <= u < s ==> !Accepts(ProbeAt(polls[p], u)))
  {
    if polls != [] {
      FoundTableIsFirstHit(polls[1..]);
      if FirstInPoll(polls[0], 0).None? {
        forall p, s | 0 < p < |polls| && 0 <= s < |TableSelectors| && !Accepts(ProbeAt(polls[1..][p - 1], s))
          ensures !Accepts(ProbeAt(polls[p], s))
        {
        }
        if FoundTable(polls).Some? {
          var p, s :| && 0 <= p < |polls[1..]| && 0 <= s < |TableSelectors|
            && Accepts(ProbeAt(polls[1..][p], s))
            && FoundTable(polls[1..]).value == ProbeAt(polls[1..][p], s).table
            && (forall q, u :: 0 <= q < p && 0 <= u < |TableSelectors| ==> !Accepts(ProbeAt(polls[1..][q], u)))
            && (forall u :: 0 <= u < s ==> !Accepts(ProbeAt(polls[1..][p], u)));
          assert polls[1..][p] == polls[p + 1];
          forall q, u | 0 <= q < p + 1 && 0 <= u < |TableSelectors|
            ensures !Accepts(ProbeAt(polls[q], u))
          {
            if q > 0 {
              assert polls[q] == polls[1..][q - 1];
            }
          }
        }
      }
    }
  }

  /** `wait_for_table(timeout)`: the loop polls once a second while the
      deadline has not passed, so at most `timeout` polls happen; `polls`
      is what the selectors would find at each successive poll. `None` is
      the `TimeoutError`. */
  method WaitForTable(timeout: nat, polls: seq<Poll>) returns (found: Option<Table>)
    ensures found == FoundTable(polls[..if timeout < |polls| then timeout else |polls|])
  {
    var n := if timeout < |polls| then timeout else |polls|;
    var p := 0;
    while p < n
      invariant 0 <= p <= n
      invariant FoundTable(polls[..n]) == FoundTable(polls[p..n])
    {
      assert polls[p..n][1..] == polls[p + 1..n];
      var s := 0;
      while s < |TableSelectors|
        invariant 0 <= s <= |TableSelectors|
        invariant FirstInPoll(polls[p], 0) == FirstInPoll(polls[p], s)
      {
        var probe := ProbeAt(polls[p], s);
        if probe.Present? {
          match probe.table
          case Unreadable =>
            return Some(probe.table);
          case Readable(rows) =>
            if |rows| >= 1 {
              return Some(probe.table);
            }
        }
        s := s + 1;
      }
      p := p + 1;
    }
    assert polls[p..n] == [];
    return None;
  }
}
