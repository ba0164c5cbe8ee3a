/**
  Choosing the reference species and the query and group IDs for an
  ortholog search (predictOrtho.py): `get_refspec`, the query-ID rule and its
  format check in `parseQueryFa`, the group-ID rule in `main` and the CPU
  clamp in `prepare_data`. The FASTA parser, `isInt`, the processes launched
  and the files written are not modelled: the record IDs and `isInt` are
  parameters.
 */
module PredictOrtho {
  import opened Wrappers
  import opened Text
  import opened Numerals

  // ---------------------------------------------------------------------------
  // get_refspec
  // ---------------------------------------------------------------------------

  /** `s.id.split('|')[1]` on an ID without `|`: IndexError, at the record with that index. */
  datatype RefError = NoSecondField(record: nat)

  /** The record ID has a second `|`-field. */
  predicate HasSecondField(id: string) {
    |Split(id, '|')| >= 2
  }

  function SecondField(id: string): string
    requires HasSecondField(id)
  {
    Split(id, '|')[1]
  }

  /** The first loop of `get_refspec`: the second `|`-field of every record ID, in file order. */
  function CoreSpecs(ids: seq<string>): (r: Result<seq<string>, RefError>)
    ensures r.Success? <==> forall i :: 0 <= i < |ids| ==> HasSecondField(ids[i])
    ensures r.Success? ==>
      |r.value| == |ids| && forall i :: 0 <= i < |ids| ==> r.value[i] == SecondField(ids[i])
    ensures r.Failure? ==>
      var k := r.error.record;
      && k < |ids| && !HasSecondField(ids[k])
      && forall i :: 0 <= i < k ==> HasSecondField(ids[i])
  {
    if ids == [] then Success([])
    else
      var prev, id := ids[..|ids| - 1], ids[|ids| - 1];
      match CoreSpecs(prev)
      case Failure(e) => Failure(e)
      case Success(core) =>
        var fields := Split(id, '|');
        if |fields| < 2 then Failure(NoSecondField(|ids| - 1))
        else Success(core + [fields[1]])
  }

  /** The second loop of `get_refspec`: the first reference species, in list order, that occurs in `core`. */
  function FirstIn(refs: seq<string>, core: seq<string>): (r: Option<string>)
    ensures r.None? <==> forall j :: 0 <= j < |refs| ==> refs[j] !in core
    ensures r.Some? ==> r.value in refs && r.value in core
  {
    if refs == [] then None
    else if refs[0] in core then Some(refs[0])
    else
      assert forall j :: 1 <= j < |refs| ==> refs[1..][j - 1] == refs[j];
      FirstIn(refs[1..], core)
  }

  /** `r` stands at a position of `refs` where it is in `core` and no earlier entry is. */
  predicate EarliestIn(refs: seq<string>, core: seq<string>, r: string) {
    exists j :: 0 <= j < |refs| && refs[j] == r && r in core && forall j' :: 0 <= j' < j ==> refs[j'] !in core
  }

  /** The species `FirstIn` returns is the earliest one in `core`. */
  lemma {:induction false} FirstInEarliest(refs: seq<string>, core: seq<string>)
    ensures FirstIn(refs, core).Some? ==> EarliestIn(refs, core, FirstIn(refs, core).value)
    decreases |refs|
  {
    if refs != [] && refs[0] !in core && FirstIn(refs, core).Some? {
      var tail := refs[1..];
      FirstInEarliest(tail, core);
      var j :| 0 <= j < |tail| && tail[j] == FirstIn(refs, core).value && tail[j] in core
        && forall j' :: 0 <= j' < j ==> tail[j'] !in core;
      assert refs[j + 1] == tail[j];
      forall j' | 0 <= j' < j + 1
        ensures refs[j'] !in core
      {
        if j' > 0 {
          assert refs[j'] == tail[j' - 1];
        }
      }
    }
  }

  /**
    `get_refspec(refspecList, groupFa)` on the IDs of the group file's records:
    an IndexError if some ID has no `|`, otherwise the first reference species
    found among the second fields, or `None`.
   */
  function GetRefspec(refs: seq<string>, ids: seq<string>): Result<Option<string>, RefError> {
    var core :- CoreSpecs(ids);
    Success(FirstIn(refs, core))
  }

  /** `r` is the earliest entry of `refs` that is the second field of some record ID. */
  predicate EarliestShared(refs: seq<string>, ids: seq<string>, r: string)
    requires forall i :: 0 <= i < |ids| ==> HasSecondField(ids[i])
  {
    exists j :: 0 <= j < |refs| && refs[j] == r && Shared(refs[j], ids) &&
      forall j' :: 0 <= j' < j ==> !Shared(refs[j'], ids)
  }

  predicate Shared(ref: string, ids: seq<string>)
    requires forall i :: 0 <= i < |ids| ==> HasSecondField(ids[i])
  {
    exists i :: 0 <= i < |ids| && SecondField(ids[i]) == ref
  }

  lemma SharedIsIn(ref: string, ids: seq<string>, core: seq<string>)
    requires CoreSpecs(ids) == Success(core)
    ensures Shared(ref, ids) <==> ref in core
  {
    if ref in core {
      var i :| 0 <= i < |core| && core[i] == ref;
      assert SecondField(ids[i]) == ref;
    }
  }

  /**
    `get_refspec` fails exactly when some record ID has no `|`; otherwise it
    returns `None` exactly when no reference species is a second field of any
    ID, and a species exactly when it is the earliest such one in list order.
   */
  lemma GetRefspecSpec(refs: seq<string>, ids: seq<string>)
    ensures GetRefspec(refs, ids).Failure? <==> exists i :: 0 <= i < |ids| && '|' !in ids[i]
    ensures GetRefspec(refs, ids).Success? ==>
      && (GetRefspec(refs, ids).value.None? <==> forall j :: 0 <= j < |refs| ==> !Shared(refs[j], ids))
      && (GetRefspec(refs, ids).value.Some? ==> EarliestShared(refs, ids, GetRefspec(refs, ids).value.value))
  {
    forall i | 0 <= i < |ids|
      ensures HasSecondField(ids[i]) <==> '|' in ids[i]
    {
      SplitCount(ids[i], '|');
    }
    var c := CoreSpecs(ids);
    if c.Success? {
      GetRefspecFound(refs, ids, c.value);
    }
  }

  lemma GetRefspecFound(refs: seq<string>, ids: seq<string>, core: seq<string>)
    requires CoreSpecs(ids) == Success(core)
    ensures GetRefspec(refs, ids) == Success(FirstIn(refs, core))
    ensures FirstIn(refs, core).None? <==> forall j :: 0 <= j < |refs| ==> !Shared(refs[j], ids)
    ensures FirstIn(refs, core).Some? ==> EarliestShared(refs, ids, FirstIn(refs, core).value)
  {
    forall ref
      ensures Shared(ref, ids) <==> ref in core
    {
      SharedIsIn(ref, ids, core);
    }
    FirstInEarliest(refs, core);
  }

  // ---------------------------------------------------------------------------
  // Query and group IDs
  // ---------------------------------------------------------------------------

  /** `path.split('/')[-1].split('.')[0]`: the file name up to its first dot. */
  function FileStem(path: string): string {
    Split(BaseName(path), '.')[0]
  }

  /** The stem is the longest dot-free prefix of the file name. */
  lemma FileStemSpec(path: string)
    ensures var base, stem := BaseName(path), FileStem(path);
      && '.' !in stem && '/' !in stem
      && stem <= base
      && (|stem| == |base| || base[|stem|] == '.')
  {
    var base := BaseName(path);
    if '.' in base {
      var i := IndexOf(base, '.');
      assert FileStem(path) == base[..i];
    }
  }

  /** The stem of `dir/stem.ext`, for a stem without dots. */
  lemma FileStemOf(dir: string, stem: string, ext: string)
    requires '/' !in stem && '/' !in ext && '.' !in stem
    ensures FileStem(dir + "/" + stem + "." + ext) == stem
  {
    var base := stem + "." + ext;
    assert dir + "/" + stem + "." + ext == dir + "/" + base;
    BaseNameOf(dir, base);
    IndexOfPrefix(stem, '.', ext);
    assert base[..|stem|] == stem;
  }

  /** The query-ID format `name@taxid@version` with an integer taxid; `isInt` is the caller's predicate. */
  predicate WellFormedID(id: string, isInt: string -> bool) {
    var parts := Split(id, '@');
    |parts| == 3 && isInt(parts[1])
  }

  /** A well-formed ID is exactly three `@`-free fields joined by `@`, the middle one an integer. */
  lemma WellFormedIDOf(a: string, b: string, c: string, isInt: string -> bool)
    requires '@' !in a && '@' !in b && '@' !in c
    ensures Split(a + "@" + b + "@" + c, '@') == [a, b, c]
    ensures WellFormedID(a + "@" + b + "@" + c, isInt) <==> isInt(b)
  {
    JoinThree(a, b, c, "@");
    SplitOfJoin([a, b, c], '@');
  }

  lemma WellFormedIDParts(id: string, isInt: string -> bool)
    requires WellFormedID(id, isInt)
    ensures var parts := Split(id, '@');
      && id == parts[0] + "@" + parts[1] + "@" + parts[2]
      && '@' !in parts[0] && '@' !in parts[1] && '@' !in parts[2]
  {
    var parts := Split(id, '@');
    JoinOfSplit(id, '@');
    assert parts == [parts[0], parts[1], parts[2]];
    JoinThree(parts[0], parts[1], parts[2], "@");
  }

  /**
    What `parseQueryFa` decides: keep the file's stem as the query ID, stop
    because no taxonomy ID was given, or register the taxon with the external
    tool (whose result is not modelled).
   */
  datatype QueryCheck = UseID(id: string) | MissingTaxid | AddTaxon

  /** The decision in `parseQueryFa`; `taxid` is the integer option, compared as `str(taxid) == '0'`. */
  function ParseQueryFa(query: string, taxid: int, isInt: string -> bool): QueryCheck {
    var id := FileStem(query);
    var parts := Split(id, '@');
    if !(|parts| == 3 && isInt(parts[1])) then
      if IntToString(taxid) == "0" then MissingTaxid else AddTaxon
    else UseID(id)
  }

  /**
    The stem is used as it is exactly when it is well formed; otherwise the run
    stops exactly when the taxonomy ID is zero, and registers the taxon else.
   */
  lemma ParseQueryFaOutcome(query: string, taxid: int, isInt: string -> bool)
    ensures var r, ok := ParseQueryFa(query, taxid, isInt), WellFormedID(FileStem(query), isInt);
      && (r.UseID? <==> ok)
      && (r.UseID? ==> r.id == FileStem(query))
      && (r == MissingTaxid <==> !ok && taxid == 0)
      && (r == AddTaxon <==> !ok && taxid != 0)
  {
    IntToStringIsZero(taxid);
  }

  /** A query file named `name@taxid@version.ext` whose taxid is an integer is used under that name. */
  lemma QueryIDOfPath(dir: string, a: string, b: string, c: string, ext: string, taxid: int, isInt: string -> bool)
    requires '/' !in a && '/' !in b && '/' !in c && '/' !in ext
    requires '.' !in a && '.' !in b && '.' !in c
    requires '@' !in a && '@' !in b && '@' !in c && isInt(b)
    ensures ParseQueryFa(dir + "/" + a + "@" + b + "@" + c + "." + ext, taxid, isInt) == UseID(a + "@" + b + "@" + c)
  {
    var id := a + "@" + b + "@" + c;
    assert dir + "/" + a + "@" + b + "@" + c + "." + ext == dir + "/" + id + "." + ext;
    FileStemOf(dir, id, ext);
    WellFormedIDOf(a, b, c, isInt);
  }

  // ---------------------------------------------------------------------------
  // prepare_data
  // ---------------------------------------------------------------------------

  /**
    `if cpus >= cpu_count(): cpus = cpu_count() - 1`; the machine's CPU count is
    a parameter. The result is below the CPU count, at most the request, and
    one of the two: so it is the largest number with both bounds.
   */
  function ClampCpus(cpus: int, cpuCount: int): (r: int)
    ensures r < cpuCount && r <= cpus
    ensures r == cpus || r == cpuCount - 1
    ensures cpus < cpuCount ==> r == cpus
  {
    if cpus >= cpuCount then cpuCount - 1 else cpus
  }
}
