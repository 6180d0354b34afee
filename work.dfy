/**
 * `create_work_experience_dict(detailexp)` (utilisys/utilisys.py:176-187).
 *
 * The source subscripts `detailexp["work"]`, iterates over it and, for
 * each `work`, looks up its company and three more fields and stores a
 * three-entry dict under the company. Subscripts raise `KeyError` for a
 * missing key and `TypeError` on a value that is not a dict; a company
 * that is a dict or a list cannot be a key and raises `TypeError` when
 * it is stored. The first exception ends the call.
 */
module WorkExperience {
  import opened Wrappers
  import opened Dicts
  import opened JsonValue

  /** A company and its record, as `work_dict` holds them. */
  type Entry = (Value, Value)

  const DurationKey: string := "duration_months"
  const ExperienceKey: string := "experience"
  const AccomplishmentsKey: string := "accomplishments"

  /** `work["dates_of_employment"]["duration_months"]`. */
  function Duration(work: Value): Result<Value, PyError> {
    var dates :- GetItem(work, "dates_of_employment");
    GetItem(dates, DurationKey)
  }

  /** The dict display of lines 182-186. */
  function Display(duration: Value, experience: Value, accomplishments: Value): Value {
    Dict([(DurationKey, duration), (ExperienceKey, experience), (AccomplishmentsKey, accomplishments)])
  }

  /**
   * One turn of the loop, given the results of its four lookups: the first
   * exception in the order the source evaluates them (the company, then
   * the dict display from left to right), then `TypeError` when the
   * company cannot be a key, and otherwise the company with its record.
   */
  function Record(company: Result<Value, PyError>, duration: Result<Value, PyError>,
                  experience: Result<Value, PyError>, accomplishments: Result<Value, PyError>): (r: Result<(Value, Value), PyError>)
    ensures r.Success? <==> company.Success? && duration.Success? && experience.Success? && accomplishments.Success?
                            && Hashable(company.value)
    ensures r.Success? ==> r.value == (company.value, Display(duration.value, experience.value, accomplishments.value))
    ensures company.Failure? ==> r == Failure(company.error)
    ensures company.Success? && duration.Failure? ==> r == Failure(duration.error)
    ensures company.Success? && duration.Success? && experience.Failure? ==> r == Failure(experience.error)
    ensures company.Success? && duration.Success? && experience.Success? && accomplishments.Failure?
            ==> r == Failure(accomplishments.error)
    ensures (company.Success? && duration.Success? && experience.Success? && accomplishments.Success?
             && !Hashable(company.value)) ==> r == Failure(TypeError)
  {
    var c :- company;
    var d :- duration;
    var e :- experience;
    var a :- accomplishments;
    if !Hashable(c) then Failure(TypeError) else Success((c, Display(d, e, a)))
  }

  /** What one turn of the loop stores for `work`: its company and record, or the exception. */
  function WorkRecord(work: Value): Result<(Value, Value), PyError> {
    Record(GetItem(work, "company"), Duration(work), GetItem(work, ExperienceKey), GetItem(work, AccomplishmentsKey))
  }

  /** The record has the three keys, in order, each with its looked-up value. */
  lemma DisplayEntries(duration: Value, experience: Value, accomplishments: Value)
    ensures var record := Display(duration, experience, accomplishments);
            && Keys(record.entries) == [DurationKey, ExperienceKey, AccomplishmentsKey]
            && GetItem(record, DurationKey) == Success(duration)
            && GetItem(record, ExperienceKey) == Success(experience)
            && GetItem(record, AccomplishmentsKey) == Success(accomplishments)
  {
    var es := Display(duration, experience, accomplishments).entries;
    assert es[1..][1..] == [(AccomplishmentsKey, accomplishments)];
    assert DurationKey[0] != ExperienceKey[0] && DurationKey[0] != AccomplishmentsKey[0];
    assert ExperienceKey[0] != AccomplishmentsKey[0];
  }

  /** The values of a sequence of results, or the first failure among them. */
  function Collect(rs: seq<Result<Entry, PyError>>): (r: Result<seq<Entry>, PyError>)
    ensures r.Success? <==> forall i :: 0 <= i < |rs| ==> rs[i].Success?
    ensures r.Success? ==> |r.value| == |rs| && forall i :: 0 <= i < |rs| ==> r.value[i] == rs[i].value
    decreases |rs|
  {
    if rs == [] then Success([])
    else
      var front :- Collect(rs[..|rs| - 1]);
      var last :- rs[|rs| - 1];
      Success(front + [last])
  }

  /** A failure is the first one: every result before it succeeds. */
  lemma {:induction false} CollectFailure(rs: seq<Result<Entry, PyError>>)
    requires Collect(rs).Failure?
    ensures exists i :: 0 <= i < |rs| && rs[i] == Failure(Collect(rs).error)
                        && forall j :: 0 <= j < i ==> rs[j].Success?
    decreases |rs|
  {
    var init := rs[..|rs| - 1];
    if Collect(init).Failure? {
      CollectFailure(init);
      var i :| 0 <= i < |init| && init[i] == Failure(Collect(init).error)
               && forall j :: 0 <= j < i ==> init[j].Success?;
      FailureInPrefix(rs, i);
    } else {
      FailureAtEnd(rs);
    }
  }

  lemma FailureInPrefix(rs: seq<Result<Entry, PyError>>, i: nat)
    requires rs != [] && i < |rs| - 1
    requires Collect(rs[..|rs| - 1]).Failure?
    requires rs[i] == Failure(Collect(rs[..|rs| - 1]).error) && forall j :: 0 <= j < i ==> rs[j].Success?
    ensures rs[i] == Failure(Collect(rs).error)
  {
  }

  lemma FailureAtEnd(rs: seq<Result<Entry, PyError>>)
    requires rs != [] && Collect(rs).Failure? && Collect(rs[..|rs| - 1]).Success?
    ensures rs[|rs| - 1] == Failure(Collect(rs).error)
    ensures forall j :: 0 <= j < |rs| - 1 ==> rs[j].Success?
  {
    assert forall j :: 0 <= j < |rs| - 1 ==> rs[j] == rs[..|rs| - 1][j];
  }

  /** A failure on a prefix is the failure of the whole sequence. */
  lemma {:induction false} CollectPrefixFailure(rs: seq<Result<Entry, PyError>>, n: nat)
    requires n <= |rs| && Collect(rs[..n]).Failure?
    ensures Collect(rs) == Collect(rs[..n])
    decreases |rs| - n
  {
    if n < |rs| {
      assert rs[..n + 1][..n] == rs[..n];
      CollectPrefixFailure(rs, n + 1);
    } else {
      assert rs[..n] == rs;
    }
  }

  /** What each turn of the loop produces, work by work. */
  function Outcomes(works: seq<Value>): (rs: seq<Result<(Value, Value), PyError>>)
    ensures |rs| == |works| && forall i :: 0 <= i < |works| ==> rs[i] == WorkRecord(works[i])
  {
    seq(|works|, i requires 0 <= i < |works| => WorkRecord(works[i]))
  }

  /** `create_work_experience_dict`: the dict built from the stored pairs, or the first exception. */
  function CreateWorkExperience(detailexp: Value): (r: Result<seq<(Value, Value)>, PyError>)
    ensures GetItem(detailexp, "work").Failure? ==> r == Failure(GetItem(detailexp, "work").error)
  {
    var workList :- GetItem(detailexp, "work");
    var works :- Iterate(workList);
    var pairs :- Collect(Outcomes(works));
    Success(FromItems(pairs))
  }

  /** The loop as the source runs it, assigning `work_dict[company]` one work at a time. */
  method CreateWorkExperienceDict(detailexp: Value) returns (r: Result<seq<(Value, Value)>, PyError>)
    ensures r == CreateWorkExperience(detailexp)
  {
    var workList := GetItem(detailexp, "work");
    if workList.Failure? {
      return Failure(workList.error);
    }
    var it := Iterate(workList.value);
    if it.Failure? {
      return Failure(it.error);
    }
    var works := it.value;
    ghost var rs := Outcomes(works);
    var workDict: seq<(Value, Value)> := [];
    ghost var pairs: seq<(Value, Value)> := [];
    var i := 0;
    while i < |works|
      invariant 0 <= i <= |works|
      invariant Collect(rs[..i]) == Success(pairs)
      invariant workDict == FromItems(pairs)
    {
      StepPrefix(rs, i);
      var record := WorkRecord(works[i]);
      if record.Failure? {
        CollectPrefixFailure(rs, i + 1);
        return Failure(record.error);
      }
      var (company, value) := record.value;
      UpdateSnoc([], pairs, (company, value));
      workDict := Set(workDict, company, value);
      pairs := pairs + [(company, value)];
      i := i + 1;
    }
    assert rs[..i] == rs;
    r := Success(workDict);
  }

  /** Collecting one more result: the earlier values and the new one, or the first failure. */
  lemma StepPrefix(rs: seq<Result<Entry, PyError>>, i: nat)
    requires i < |rs| && Collect(rs[..i]).Success?
    ensures Collect(rs[..i + 1]) == if rs[i].Success? then Success(Collect(rs[..i]).value + [rs[i].value]) else Failure(rs[i].error)
  {
    assert rs[..i + 1][..i] == rs[..i];
  }

  /**
   * Each company is stored once, with the record of the last work naming
   * it: a later work for the same company replaces the earlier one.
   */
  lemma LaterWorkWins(works: seq<Value>, pairs: seq<(Value, Value)>, i: nat)
    requires Collect(Outcomes(works)) == Success(pairs)
    requires i < |works|
    requires forall j :: i < j < |works| ==> pairs[j].0 != pairs[i].0
    ensures pairs[i] == WorkRecord(works[i]).value
    ensures Get(FromItems(pairs), pairs[i].0) == Some(pairs[i].1)
  {
    FromItemsSpec(pairs);
    LastValueAt(pairs, i);
  }

  /** The stored dict has each company once, and only entries the loop produced. */
  lemma StoredEntries(works: seq<Value>, pairs: seq<Entry>)
    requires Collect(Outcomes(works)) == Success(pairs)
    ensures |pairs| == |works|
    ensures Distinct(Keys(FromItems(pairs)))
    ensures forall p :: p in FromItems(pairs) ==> p in pairs
  {
    FromItemsSpec(pairs);
    FromItemsEntries(pairs);
  }

  /** Every stored record is the three-entry dict of its work's fields. */
  lemma StoredRecord(work: Value)
    requires WorkRecord(work).Success?
    ensures var record := WorkRecord(work).value.1;
            && GetItem(work, "company") == Success(WorkRecord(work).value.0)
            && record == Display(Duration(work).value, GetItem(work, ExperienceKey).value, GetItem(work, AccomplishmentsKey).value)
  {
  }

  /** A list of works whose first entry is not a dict fails with `TypeError`. */
  lemma FirstWorkNotADict(detailexp: Value, works: seq<Value>)
    requires GetItem(detailexp, "work") == Success(List(works))
    requires works != [] && !works[0].Dict?
    ensures CreateWorkExperience(detailexp) == Failure(TypeError)
  {
    var rs := Outcomes(works);
    assert rs[..1][..0] == [];
    CollectPrefixFailure(rs, 1);
  }

  /** An empty list of works gives an empty dict. */
  lemma NoWorks(detailexp: Value)
    requires GetItem(detailexp, "work") == Success(List([]))
    ensures CreateWorkExperience(detailexp) == Success([])
  {
  }
}
