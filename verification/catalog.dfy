/**
 * The job table and the next-job scan of the Job Finder page.
 *
 * A row's position in the table is its job id (the table is read with the
 * default integer index), and a job is recorded as done by putting the
 * decimal spelling of that id, `str(idx)`, into the user's applied set.
 */
module Catalog {
  import opened Wrappers
  import Text

  /**
   * One cell of a row, as `row.get(column)` sees it: the column may be
   * absent (`Missing`, so `get` returns its default), hold a string, or hold
   * some other value (an empty CSV cell is read as a NaN float), whose
   * `str()` is `repr`.
   */
  datatype Cell = Missing | Str(value: string) | NonStr(repr: string)
  {
    /** `row.get(column, default)`. */
    function GetOr(default: string): (c: Cell)
      ensures !c.Missing?
      ensures !Missing? ==> c == this
    {
      if Missing? then Str(default) else this
    }

    /** Python's `str()` of the cell value (`Missing` is only ever read through `GetOr`). */
    function Show(): string
    {
      match this
      case Missing => []
      case Str(s) => s
      case NonStr(r) => r
    }
  }

  /** The columns of a job posting that the application reads. */
  datatype Row = Row(
    jobTitle: Cell,
    hospitalName: Cell,
    canton: Cell,
    contactEmail: Cell,
    jobDescription: Cell)

  type Table = seq<Row>

  /** The key under which job `j` is stored in the applied set: `str(j)`. */
  function JobKey(j: nat): string
  {
    Text.NatToString(j)
  }

  /** The contact cell is a string containing `@`. */
  predicate HasAddress(row: Row)
  {
    row.contactEmail.Str? && '@' in row.contactEmail.value
  }

  /** Job `j` exists, is not in the applied set, and has a usable contact address. */
  predicate Pending(rows: Table, applied: set<string>, j: nat)
  {
    j < |rows| && JobKey(j) !in applied && HasAddress(rows[j])
  }

  /** The first pending job at or after index `from`. */
  function NextJobFrom(rows: Table, applied: set<string>, from: nat): (r: Option<nat>)
    requires from <= |rows|
    ensures r.Some? ==> from <= r.value && Pending(rows, applied, r.value)
    ensures r.Some? ==> forall k: nat :: from <= k < r.value ==> !Pending(rows, applied, k)
    ensures r.None? <==> forall k: nat :: from <= k ==> !Pending(rows, applied, k)
    decreases |rows| - from
  {
    if from == |rows| then None
    else if Pending(rows, applied, from) then Some(from)
    else NextJobFrom(rows, applied, from + 1)
  }

  /**
   * The job the Job Finder shows next: the first row, in table order, that
   * is pending; None when every row is done or has no usable address.
   */
  function NextJob(rows: Table, applied: set<string>): (r: Option<nat>)
    ensures r.Some? ==> Pending(rows, applied, r.value)
    ensures r.Some? ==> forall k: nat :: k < r.value ==> !Pending(rows, applied, k)
    ensures r.None? <==> forall k: nat :: k < |rows| ==> !Pending(rows, applied, k)
  {
    NextJobFrom(rows, applied, 0)
  }

  /** A row without a string contact containing `@` is never shown, whatever has been applied to. */
  lemma NoAddressNeverSelected(rows: Table, applied: set<string>, j: nat)
    requires j < |rows| && !HasAddress(rows[j])
    ensures NextJob(rows, applied) != Some(j)
  {
  }

  /** Once a job's key is in the applied set the scan never returns it again. */
  lemma AppliedNeverSelected(rows: Table, applied: set<string>, j: nat)
    requires JobKey(j) in applied
    ensures NextJob(rows, applied) != Some(j)
  {
  }

  /** The ids of all pending jobs. */
  function PendingSet(rows: Table, applied: set<string>): (ids: set<nat>)
    ensures forall j :: j in ids <==> Pending(rows, applied, j)
    ensures NextJob(rows, applied).None? <==> ids == {}
    ensures NextJob(rows, applied).Some? ==>
      NextJob(rows, applied).value in ids && forall k :: k in ids ==> NextJob(rows, applied).value <= k
  {
    var ids := set j: nat | j < |rows| && Pending(rows, applied, j);
    if NextJob(rows, applied).Some? then
      assert NextJob(rows, applied).value in ids;
      ids
    else
      assert ids == {};
      ids
  }

  /**
   * Retiring job `j` (adding `str(j)` to the applied set) takes exactly `j`
   * out of the pending jobs: distinct ids have distinct keys.
   */
  lemma RetireExactlyOne(rows: Table, applied: set<string>, j: nat)
    ensures PendingSet(rows, applied + {JobKey(j)}) == PendingSet(rows, applied) - {j}
  {
    forall k: nat | k != j
      ensures Pending(rows, applied + {JobKey(j)}, k) <==> Pending(rows, applied, k)
    {
      if JobKey(k) == JobKey(j) {
        Text.NatToStringInjective(k, j);
      }
    }
  }

  /**
   * An example: rows 0 and 2 carry addresses, row 1's contact cell
   * is empty. The scan shows row 0 first, and row 2 once row 0 is retired.
   */
  lemma ExampleScan()
    ensures var rows := [
              Row(Str("A"), Str("H"), Str("ZH"), Str("a@x.ch"), Str("d")),
              Row(Str("B"), Str("H"), Str("BE"), NonStr("nan"), Str("d")),
              Row(Str("C"), Str("H"), Str("GE"), Str("b@y.ch"), Str("d"))];
            NextJob(rows, {}) == Some(0) && NextJob(rows, {JobKey(0)}) == Some(2)
  {
    var rows := [
      Row(Str("A"), Str("H"), Str("ZH"), Str("a@x.ch"), Str("d")),
      Row(Str("B"), Str("H"), Str("BE"), NonStr("nan"), Str("d")),
      Row(Str("C"), Str("H"), Str("GE"), Str("b@y.ch"), Str("d"))];
    assert rows[0].contactEmail.value[1] == '@';
    assert rows[2].contactEmail.value[1] == '@';
    assert Pending(rows, {}, 0);
    assert JobKey(2) != JobKey(0) by {
      assert JobKey(2)[0] == '2' && JobKey(0)[0] == '0';
    }
    assert Pending(rows, {JobKey(0)}, 2);
  }
}
