/**
  Removal of identical sequences from a multi-FASTA file (groupfilter.py).

  `read_fasta` is a state machine over the file's lines. It is modelled here in
  three layers:
  - `ScanLines`, the line-by-line machine itself (`Step` is one loop iteration);
  - `Records`, the grouping of lines into (header, sequence) records that the
    machine performs on the side;
  - `KeepAll`, the first-occurrence de-duplication of a list of records.
  `ScanFollowsRecords` proves the machine is the composition of the last two,
  and the properties of the reader are then proved about `KeepAll`.

  The same machine also runs in a `Corrected` variant in which the final record
  is de-duplicated like the others and an empty header does not drop its record.
 */
module GroupFilter {
  import opened Wrappers
  import opened Text
  import opened Dicts
  import opened Numerals

  // ---------------------------------------------------------------------------
  // Lines
  // ---------------------------------------------------------------------------

  /** The lines `readline()` returns before the end of the file: none of them is empty. */
  predicate NonEmptyLines(lines: seq<string>) {
    forall i :: 0 <= i < |lines| ==> lines[i] != []
  }

  predicate IsHeaderLine(line: string) {
    |line| > 0 && line[0] == '>'
  }

  /** `line.lstrip('>').rstrip('\n')`: the header a `>` line introduces. */
  function HeaderOf(line: string): string {
    RStrip(LStrip(line, '>'), '\n')
  }

  /** `line.rstrip('\n')`: what a sequence line adds to its record. */
  function SeqPart(line: string): string {
    RStrip(line, '\n')
  }

  function SeqParts(lines: seq<string>): (parts: seq<string>)
    ensures |parts| == |lines|
  {
    seq(|lines|, i requires 0 <= i < |lines| => SeqPart(lines[i]))
  }

  /** The number of lines starting with `>`. */
  function CountHeaderLines(lines: seq<string>): nat {
    if lines == [] then 0
    else CountHeaderLines(lines[..|lines| - 1]) + (if IsHeaderLine(lines[|lines| - 1]) then 1 else 0)
  }

  // ---------------------------------------------------------------------------
  // Records
  // ---------------------------------------------------------------------------

  /** A FASTA record: its header and its sequence. */
  datatype Record = Record(header: string, sequence: string)

  /**
    The records of a file: each `>` line opens a record whose sequence is the
    concatenation of the following non-header lines; lines before the first
    header belong to no record.
   */
  function Records(lines: seq<string>): seq<Record> {
    if lines == [] then []
    else
      var rs := Records(lines[..|lines| - 1]);
      var line := lines[|lines| - 1];
      if IsHeaderLine(line) then rs + [Record(HeaderOf(line), "")]
      else if rs == [] then []
      else
        var last := rs[|rs| - 1];
        rs[..|rs| - 1] + [Record(last.header, last.sequence + SeqPart(line))]
  }

  function Headers(rs: seq<Record>): (hs: seq<string>)
    ensures |hs| == |rs|
  {
    seq(|rs|, i requires 0 <= i < |rs| => rs[i].header)
  }

  function Seqs(rs: seq<Record>): (ss: seq<string>)
    ensures |ss| == |rs|
  {
    seq(|rs|, i requires 0 <= i < |rs| => rs[i].sequence)
  }

  predicate HeadersDistinct(rs: seq<Record>) {
    forall i, j :: 0 <= i < j < |rs| ==> rs[i].header != rs[j].header
  }

  /** The records whose header is not empty: the ones `if header:` lets through. */
  function Named(rs: seq<Record>): (named: seq<Record>)
    ensures |named| <= |rs|
  {
    if rs == [] then []
    else Named(rs[..|rs| - 1]) + (if rs[|rs| - 1].header == "" then [] else [rs[|rs| - 1]])
  }

  /** Lines before the first header line make no record. */
  lemma {:induction false} RecordsOfPreamble(pre: seq<string>)
    requires forall i :: 0 <= i < |pre| ==> !IsHeaderLine(pre[i])
    ensures Records(pre) == []
    decreases |pre|
  {
    if pre != [] {
      RecordsOfPreamble(pre[..|pre| - 1]);
    }
  }

  lemma {:induction false} RecordsExtend(lines: seq<string>, prefix: seq<Record>, hdr: string, sequence: string, line: string)
    requires !IsHeaderLine(line)
    requires Records(lines) == prefix + [Record(hdr, sequence)]
    ensures Records(lines + [line]) == prefix + [Record(hdr, sequence + SeqPart(line))]
  {
    RecordsSnoc(lines, line);
    var rs := Records(lines);
    assert rs[..|rs| - 1] == prefix;
  }

  /** One more line: a header line opens a record, any other line extends the last record, if there is one. */
  lemma {:induction false} RecordsSnoc(lines: seq<string>, line: string)
    ensures var rs := Records(lines);
      Records(lines + [line]) ==
        if IsHeaderLine(line) then rs + [Record(HeaderOf(line), "")]
        else if rs == [] then []
        else rs[..|rs| - 1] + [Record(rs[|rs| - 1].header, rs[|rs| - 1].sequence + SeqPart(line))]
  {
    assert (lines + [line])[..|lines|] == lines;
  }

  /** There is one record per header line. */
  lemma {:induction false} RecordsCount(lines: seq<string>)
    ensures |Records(lines)| == CountHeaderLines(lines)
    decreases |lines|
  {
    if lines != [] {
      RecordsCount(lines[..|lines| - 1]);
    }
  }

  // ---------------------------------------------------------------------------
  // First-occurrence de-duplication of records
  // ---------------------------------------------------------------------------

  /** `fasta_dict` (header to sequence) and `identical` (kept header to the headers dropped for it). */
  datatype Kept = Kept(fasta: Dict<string, string>, identical: Dict<string, seq<string>>)

  /** The number of headers listed in `identical`, over all its lists. */
  function TotalLen(identical: Dict<string, seq<string>>): nat {
    if identical == [] then 0
    else TotalLen(identical[..|identical| - 1]) + |identical[|identical| - 1].1|
  }

  lemma {:induction false} TotalLenUpdate(d: Dict<string, seq<string>>, i: nat, e: (string, seq<string>))
    requires i < |d|
    ensures TotalLen(d[i := e]) + |d[i].1| == TotalLen(d) + |e.1|
    decreases |d|
  {
    var n := |d| - 1;
    if i < n {
      TotalLenUpdate(d[..n], i, e);
      assert d[i := e][..n] == d[..n][i := e];
    } else {
      assert d[i := e][..n] == d[..n];
    }
  }

  /** The headers listed under `k`, none when `k` has no list. */
  function Listed(identical: Dict<string, seq<string>>, k: string): seq<string> {
    match Get(identical, k)
    case Some(hs) => hs
    case None => []
  }

  /** `identical[k].append(h)`, or `identical[k] = [h]` when `k` has no list yet. */
  function AddDuplicate(identical: Dict<string, seq<string>>, k: string, h: string): Dict<string, seq<string>> {
    Put(identical, k, Listed(identical, k) + [h])
  }

  /** Listing `h` under `k` extends `k`'s list by `h`, touches no other list, and adds one to the total. */
  lemma AddDuplicateSpec(identical: Dict<string, seq<string>>, k: string, h: string)
    ensures Get(AddDuplicate(identical, k, h), k) == Some(Listed(identical, k) + [h])
    ensures forall k' :: k' != k ==> Get(AddDuplicate(identical, k, h), k') == Get(identical, k')
    ensures KeysDistinct(identical) ==> KeysDistinct(AddDuplicate(identical, k, h))
    ensures TotalLen(AddDuplicate(identical, k, h)) == TotalLen(identical) + 1
  {
    AddDuplicateTotal(identical, k, h);
  }

  lemma AddDuplicateTotal(identical: Dict<string, seq<string>>, k: string, h: string)
    ensures TotalLen(AddDuplicate(identical, k, h)) == TotalLen(identical) + 1
  {
    var hs := Listed(identical, k) + [h];
    PutShape(identical, k, hs);
    if k in Keys(identical) {
      var i := Find(identical, k).value;
      TotalLenUpdate(identical, i, (k, hs));
    } else {
      assert (identical + [(k, hs)])[..|identical|] == identical;
    }
  }

  /**
    The loop `for entry in fasta_dict`: `h` is listed under every entry whose
    sequence is `s`; the flag is `tmp`, true when no entry matched.
   */
  function MatchEntries(entries: Dict<string, string>, s: string, h: string, identical: Dict<string, seq<string>>): (Dict<string, seq<string>>, bool)
    decreases |entries|
  {
    if entries == [] then (identical, true)
    else
      var identical' := if entries[0].1 == s then AddDuplicate(identical, entries[0].0, h) else identical;
      var (identical'', unmatched) := MatchEntries(entries[1..], s, h, identical');
      (identical'', unmatched && entries[0].1 != s)
  }

  /**
    Over entries with distinct sequences the loop matches at most once: `h` is
    listed under the one entry holding `s`, if any, and the flag says whether there was none.
   */
  lemma {:induction false} MatchEntriesOnce(entries: Dict<string, string>, s: string, h: string, identical: Dict<string, seq<string>>)
    requires ValuesDistinct(entries)
    ensures MatchEntries(entries, s, h, identical)
         == if s in Values(entries) then (AddDuplicate(identical, entries[FindValue(entries, s)].0, h), false)
            else (identical, true)
  {
    if s in Values(entries) {
      MatchEntriesAt(entries, s, h, identical, FindValue(entries, s));
    } else {
      forall j | 0 <= j < |entries|
        ensures entries[j].1 != s
      {
        assert Values(entries)[j] == entries[j].1;
      }
      MatchEntriesNone(entries, s, h, identical);
    }
  }

  /** No entry holds `s`: nothing is listed and the flag stays set. */
  lemma {:induction false} MatchEntriesNone(entries: Dict<string, string>, s: string, h: string, identical: Dict<string, seq<string>>)
    requires forall j :: 0 <= j < |entries| ==> entries[j].1 != s
    ensures MatchEntries(entries, s, h, identical) == (identical, true)
    decreases |entries|
  {
    if entries != [] {
      var rest := entries[1..];
      assert forall j :: 0 <= j < |rest| ==> rest[j] == entries[j + 1];
      MatchEntriesNone(rest, s, h, identical);
    }
  }

  /** Only the entry at `i` holds `s`: `h` is listed under its key and the flag is cleared. */
  lemma {:induction false} MatchEntriesAt(entries: Dict<string, string>, s: string, h: string, identical: Dict<string, seq<string>>, i: nat)
    requires ValuesDistinct(entries) && i < |entries| && entries[i].1 == s
    ensures MatchEntries(entries, s, h, identical) == (AddDuplicate(identical, entries[i].0, h), false)
    decreases i
  {
    var rest := entries[1..];
    assert forall j :: 0 <= j < |rest| ==> rest[j] == entries[j + 1];
    if i == 0 {
      MatchEntriesNone(rest, s, h, AddDuplicate(identical, entries[0].0, h));
    } else {
      assert ValuesDistinct(rest);
      MatchEntriesAt(rest, s, h, identical, i - 1);
    }
  }

  /** The `if header:` block for a finished record `(h, s)`: kept when its sequence is new, else listed as a duplicate. */
  function Keep(k: Kept, h: string, s: string): Kept {
    var (identical, unmatched) := MatchEntries(k.fasta, s, h, k.identical);
    if unmatched then Kept(Put(k.fasta, h, s), identical) else Kept(k.fasta, identical)
  }

  /**
    While the kept sequences are distinct, a record with a new sequence is
    stored under its header and one with a kept sequence is listed under that
    sequence's header, and the kept sequences stay distinct.
   */
  lemma KeepOnce(k: Kept, h: string, s: string)
    requires ValuesDistinct(k.fasta)
    ensures Keep(k, h, s)
         == if s in Values(k.fasta) then Kept(k.fasta, AddDuplicate(k.identical, k.fasta[FindValue(k.fasta, s)].0, h))
            else Kept(Put(k.fasta, h, s), k.identical)
    ensures ValuesDistinct(Keep(k, h, s).fasta)
  {
    MatchEntriesOnce(k.fasta, s, h, k.identical);
    if s !in Values(k.fasta) {
      PutFreshValue(k.fasta, h, s);
    }
  }

  /**
    The two dicts after every record of `rs` went through `Keep`, in order. The
    kept sequences stay pairwise distinct, and so do the keys of both dicts.
   */
  function KeepAll(rs: seq<Record>): (k: Kept)
    ensures ValuesDistinct(k.fasta) && KeysDistinct(k.fasta) && KeysDistinct(k.identical)
  {
    if rs == [] then Kept([], [])
    else
      var r, prev := rs[|rs| - 1], KeepAll(rs[..|rs| - 1]);
      KeepOnce(prev, r.header, r.sequence);
      Keep(prev, r.header, r.sequence)
  }

  /** Reference for `fasta_dict`: each record whose sequence no earlier record has, in input order. */
  function Firsts(rs: seq<Record>): Dict<string, string> {
    if rs == [] then []
    else
      var prev, r := rs[..|rs| - 1], rs[|rs| - 1];
      Firsts(prev) + (if r.sequence in Seqs(prev) then [] else [(r.header, r.sequence)])
  }

  /** Reference for `identical`: the headers of the records with sequence `s` after the first one, in input order. */
  function Dups(rs: seq<Record>, s: string): seq<string> {
    if rs == [] then []
    else
      var prev, r := rs[..|rs| - 1], rs[|rs| - 1];
      Dups(prev, s) + (if r.sequence == s && s in Seqs(prev) then [r.header] else [])
  }

  /** A list in `identical`: present exactly when some header was dropped. */
  function AsListed(ds: seq<string>): Option<seq<string>> {
    if ds == [] then None else Some(ds)
  }

  lemma SeqsSnoc(rs: seq<Record>, r: Record)
    ensures Seqs(rs + [r]) == Seqs(rs) + [r.sequence]
    ensures Headers(rs + [r]) == Headers(rs) + [r.header]
  {
    forall i | 0 <= i < |rs|
      ensures (rs + [r])[i] == rs[i]
    {
    }
  }

  lemma FirstsSnoc(rs: seq<Record>, r: Record)
    ensures Firsts(rs + [r]) == Firsts(rs) + (if r.sequence in Seqs(rs) then [] else [(r.header, r.sequence)])
  {
    assert (rs + [r])[..|rs|] == rs;
  }

  lemma DupsSnoc(rs: seq<Record>, r: Record)
    ensures forall s :: Dups(rs + [r], s) == Dups(rs, s) + (if r.sequence == s && s in Seqs(rs) then [r.header] else [])
  {
    assert (rs + [r])[..|rs|] == rs;
  }

  /** Every sequence of the records is kept, under the header of a record. */
  lemma {:induction false} FirstsCover(rs: seq<Record>)
    ensures forall s :: s in Values(Firsts(rs)) <==> s in Seqs(rs)
    ensures forall h :: h in Keys(Firsts(rs)) ==> h in Headers(rs)
    decreases |rs|
  {
    if rs != [] {
      var prev, r := rs[..|rs| - 1], rs[|rs| - 1];
      FirstsCover(prev);
      assert prev + [r] == rs;
      SeqsSnoc(prev, r);
      FirstsSnoc(prev, r);
      var f := Firsts(prev);
      if r.sequence !in Seqs(prev) {
        assert Values(f + [(r.header, r.sequence)]) == Values(f) + [r.sequence];
        assert Keys(f + [(r.header, r.sequence)]) == Keys(f) + [r.header];
      } else {
        assert Firsts(rs) == f;
      }
    }
  }

  /** A sequence that occurs once has no dropped headers. */
  lemma {:induction false} DupsOfNew(rs: seq<Record>, s: string)
    requires s !in Seqs(rs)
    ensures Dups(rs, s) == []
    decreases |rs|
  {
    if rs != [] {
      var prev, r := rs[..|rs| - 1], rs[|rs| - 1];
      assert prev + [r] == rs;
      SeqsSnoc(prev, r);
      DupsOfNew(prev, s);
    }
  }

  /**
    What `fasta_dict` and `identical` hold after the records `rs`: the first
    record of every sequence, each kept header's dropped headers, lists only
    under kept headers, and one entry or one listed header per record.
   */
  predicate Describes(k: Kept, rs: seq<Record>) {
    && k.fasta == Firsts(rs)
    && (forall i :: 0 <= i < |k.fasta| ==> Get(k.identical, k.fasta[i].0) == AsListed(Dups(rs, k.fasta[i].1)))
    && (forall key :: key in Keys(k.identical) ==> key in Keys(k.fasta))
    && |k.fasta| + TotalLen(k.identical) == |rs|
  }

  /** A record whose sequence is already kept is listed under the header that holds it. */
  lemma {:induction false} DescribesSeen(k: Kept, rs: seq<Record>, r: Record, j: nat)
    requires Describes(k, rs) && KeysDistinct(k.fasta) && ValuesDistinct(k.fasta)
    requires r.sequence in Seqs(rs) && j < |k.fasta| && k.fasta[j].1 == r.sequence
    ensures Describes(Kept(k.fasta, AddDuplicate(k.identical, k.fasta[j].0, r.header)), rs + [r])
  {
    var kj := k.fasta[j].0;
    var identical' := AddDuplicate(k.identical, kj, r.header);
    AddDuplicateSpec(k.identical, kj, r.header);
    FirstsSnoc(rs, r);
    forall i | 0 <= i < |k.fasta|
      ensures Get(identical', k.fasta[i].0) == AsListed(Dups(rs + [r], k.fasta[i].1))
    {
      SeenEntry(k, rs, r, j, i);
    }
    forall key | key in Keys(identical')
      ensures key in Keys(k.fasta)
    {
      if key != kj {
        assert Get(identical', key) == Get(k.identical, key);
      } else {
        assert Keys(k.fasta)[j] == kj;
      }
    }
  }

  lemma {:induction false} SeenEntry(k: Kept, rs: seq<Record>, r: Record, j: nat, i: nat)
    requires Describes(k, rs) && KeysDistinct(k.fasta) && ValuesDistinct(k.fasta)
    requires r.sequence in Seqs(rs) && j < |k.fasta| && k.fasta[j].1 == r.sequence && i < |k.fasta|
    ensures Get(AddDuplicate(k.identical, k.fasta[j].0, r.header), k.fasta[i].0) == AsListed(Dups(rs + [r], k.fasta[i].1))
  {
    var kj := k.fasta[j].0;
    AddDuplicateSpec(k.identical, kj, r.header);
    DupsSnoc(rs, r);
    var ds := Dups(rs, r.sequence);
    if i == j {
      assert Get(k.identical, kj) == AsListed(ds);
      assert Listed(k.identical, kj) == ds;
      assert Dups(rs + [r], r.sequence) == ds + [r.header];
    } else {
      assert k.fasta[i].0 != kj && k.fasta[i].1 != r.sequence;
      assert Dups(rs + [r], k.fasta[i].1) == Dups(rs, k.fasta[i].1);
    }
  }

  /** A record with a new sequence is kept under its header, which has no list yet. */
  lemma {:induction false} DescribesFresh(k: Kept, rs: seq<Record>, r: Record)
    requires Describes(k, rs)
    requires r.sequence !in Seqs(rs) && r.header !in Headers(rs)
    ensures Describes(Kept(k.fasta + [(r.header, r.sequence)], k.identical), rs + [r])
  {
    FirstsCover(rs);
    FirstsSnoc(rs, r);
    DupsSnoc(rs, r);
    DupsOfNew(rs, r.sequence);
    var rs', f' := rs + [r], k.fasta + [(r.header, r.sequence)];
    assert Keys(f') == Keys(k.fasta) + [r.header];
    forall i | 0 <= i < |f'|
      ensures Get(k.identical, f'[i].0) == AsListed(Dups(rs', f'[i].1))
    {
      if i < |k.fasta| {
        assert f'[i] == k.fasta[i];
        assert Values(k.fasta)[i] == k.fasta[i].1;
        assert k.fasta[i].1 in Seqs(rs);
        assert Dups(rs', k.fasta[i].1) == Dups(rs, k.fasta[i].1);
        assert Get(k.identical, k.fasta[i].0) == AsListed(Dups(rs, k.fasta[i].1));
      } else {
        assert f'[i] == (r.header, r.sequence);
        assert r.header !in Keys(k.fasta);
        assert Get(k.identical, r.header) == None;
        assert Dups(rs', r.sequence) == [];
      }
    }
  }

  /** One more record: `Keep` extends what the dicts describe, given distinct headers. */
  lemma {:induction false} DescribesSnoc(k: Kept, rs: seq<Record>, r: Record)
    requires Describes(k, rs) && KeysDistinct(k.fasta) && ValuesDistinct(k.fasta)
    requires r.header !in Headers(rs)
    ensures Describes(Keep(k, r.header, r.sequence), rs + [r])
  {
    FirstsCover(rs);
    KeepOnce(k, r.header, r.sequence);
    if r.sequence in Seqs(rs) {
      DescribesSeen(k, rs, r, FindValue(k.fasta, r.sequence));
    } else {
      PutShape(k.fasta, r.header, r.sequence);
      DescribesFresh(k, rs, r);
    }
  }

  lemma LastHeaderNew(rs: seq<Record>)
    requires rs != [] && HeadersDistinct(rs)
    ensures HeadersDistinct(rs[..|rs| - 1]) && rs[|rs| - 1].header !in Headers(rs[..|rs| - 1])
  {
    var prev := rs[..|rs| - 1];
    forall i | 0 <= i < |prev|
      ensures Headers(prev)[i] != rs[|rs| - 1].header
    {
      assert rs[i] == prev[i];
    }
  }

  /** Over records with distinct headers, `KeepAll` computes the reference dicts. */
  lemma {:induction false} KeepAllDescribes(rs: seq<Record>)
    requires HeadersDistinct(rs)
    ensures Describes(KeepAll(rs), rs)
    decreases |rs|
  {
    if rs != [] {
      var prev, r := rs[..|rs| - 1], rs[|rs| - 1];
      LastHeaderNew(rs);
      KeepAllDescribes(prev);
      assert prev + [r] == rs;
      DescribesSnoc(KeepAll(prev), prev, r);
    }
  }

  // ---------------------------------------------------------------------------
  // The line machine
  // ---------------------------------------------------------------------------

  /** The code as written, or with the two defects listed under Findings corrected. */
  datatype Variant = AsWritten | Corrected

  /** Whether a finished record with header `h` goes through `Keep`: `if header:` as written, `header is not None` corrected. */
  predicate Admits(h: Option<string>, v: Variant) {
    if v == AsWritten then h.Some? && h.value != "" else h.Some?
  }

  /** The records a variant passes to `Keep`. */
  function Admitted(rs: seq<Record>, v: Variant): seq<Record> {
    if v == AsWritten then Named(rs) else rs
  }

  /** The loop variables of `read_fasta`: the dicts, `count`, `header` and `seq`. */
  datatype Scan = Scan(kept: Kept, count: nat, header: Option<string>, pending: string)

  /** One iteration of the `while line:` loop. */
  function Step(st: Scan, line: string, v: Variant): Scan
    requires line != []
  {
    if line[0] == '>' then
      var kept := if Admits(st.header, v) then Keep(st.kept, st.header.value, st.pending) else st.kept;
      Scan(kept, st.count + 1, Some(HeaderOf(line)), "")
    else
      st.(pending := st.pending + SeqPart(line))
  }

  /** The loop run over all lines, from the initial state. */
  function ScanLines(lines: seq<string>, v: Variant): Scan
    requires NonEmptyLines(lines)
  {
    if lines == [] then Scan(Kept([], []), 0, None, "")
    else Step(ScanLines(lines[..|lines| - 1], v), lines[|lines| - 1], v)
  }

  /**
    What the loop variables hold after `lines`: `count` is the number of
    records; before the first header `seq` has gathered every line; after it,
    `header` and `seq` are the last record's, and the dicts are `KeepAll` of
    the earlier records the variant admits.
   */
  predicate Follows(st: Scan, lines: seq<string>, v: Variant) {
    var rs := Records(lines);
    && st.count == |rs|
    && (rs == [] ==> st.header == None && st.kept == Kept([], []) && st.pending == Concat(SeqParts(lines)))
    && (rs != [] ==>
          && st.header == Some(rs[|rs| - 1].header)
          && st.pending == rs[|rs| - 1].sequence
          && st.kept == KeepAll(Admitted(rs[..|rs| - 1], v)))
  }

  /** One loop iteration keeps `Follows`. */
  lemma {:induction false} FollowsStep(st: Scan, lines: seq<string>, line: string, v: Variant)
    requires line != [] && Follows(st, lines, v)
    ensures Follows(Step(st, line, v), lines + [line], v)
  {
    if IsHeaderLine(line) {
      FollowsHeader(st, lines, line, v);
    } else if Records(lines) == [] {
      FollowsPreamble(st, lines, line, v);
    } else {
      FollowsBody(st, lines, line, v);
    }
  }

  lemma {:induction false} FollowsHeader(st: Scan, lines: seq<string>, line: string, v: Variant)
    requires IsHeaderLine(line) && Follows(st, lines, v)
    ensures Follows(Step(st, line, v), lines + [line], v)
  {
    RecordsSnoc(lines, line);
    var rs, rs' := Records(lines), Records(lines + [line]);
    assert rs'[..|rs'| - 1] == rs;
    var st' := Step(st, line, v);
    assert st'.header == Some(HeaderOf(line)) && st'.pending == "" && st'.count == st.count + 1;
    if rs != [] {
      assert rs == rs[..|rs| - 1] + [rs[|rs| - 1]];
      AdmittedSnoc(rs[..|rs| - 1], rs[|rs| - 1], v);
    }
  }

  lemma {:induction false} FollowsPreamble(st: Scan, lines: seq<string>, line: string, v: Variant)
    requires line != [] && !IsHeaderLine(line) && Records(lines) == [] && Follows(st, lines, v)
    ensures Follows(Step(st, line, v), lines + [line], v)
  {
    RecordsSnoc(lines, line);
    SeqPartsSnoc(lines, line);
  }

  lemma {:induction false} FollowsBody(st: Scan, lines: seq<string>, line: string, v: Variant)
    requires line != [] && !IsHeaderLine(line) && Records(lines) != [] && Follows(st, lines, v)
    ensures Follows(Step(st, line, v), lines + [line], v)
  {
    RecordsSnoc(lines, line);
    var rs, rs' := Records(lines), Records(lines + [line]);
    assert rs'[..|rs'| - 1] == rs[..|rs| - 1];
  }

  lemma {:induction false} SeqPartsSnoc(lines: seq<string>, line: string)
    ensures Concat(SeqParts(lines + [line])) == Concat(SeqParts(lines)) + SeqPart(line)
  {
    assert SeqParts(lines + [line]) == SeqParts(lines) + [SeqPart(line)];
    ConcatSnoc(SeqParts(lines), SeqPart(line));
  }

  /** The machine groups lines into `Records` and hands each finished record the variant admits to `Keep`. */
  lemma {:induction false} ScanFollowsRecords(lines: seq<string>, v: Variant)
    requires NonEmptyLines(lines)
    ensures Follows(ScanLines(lines, v), lines, v)
    decreases |lines|
  {
    if lines != [] {
      var n := |lines| - 1;
      ScanFollowsRecords(lines[..n], v);
      FollowsStep(ScanLines(lines[..n], v), lines[..n], lines[n], v);
      assert lines[..n] + [lines[n]] == lines;
    }
  }

  lemma {:induction false} AdmittedSnoc(rs: seq<Record>, r: Record, v: Variant)
    ensures KeepAll(Admitted(rs + [r], v))
         == if Admits(Some(r.header), v) then Keep(KeepAll(Admitted(rs, v)), r.header, r.sequence) else KeepAll(Admitted(rs, v))
  {
    assert (rs + [r])[..|rs|] == rs;
    if Admits(Some(r.header), v) {
      var a := Admitted(rs + [r], v);
      assert a == Admitted(rs, v) + [r];
      assert a[..|a| - 1] == Admitted(rs, v);
    } else {
      assert Admitted(rs + [r], v) == Admitted(rs, v);
    }
  }

  /** The `count` returned by `read_fasta`: the number of lines starting with `>`. */
  lemma {:induction false} ScanCount(lines: seq<string>, v: Variant)
    requires NonEmptyLines(lines)
    ensures ScanLines(lines, v).count == CountHeaderLines(lines)
  {
    ScanFollowsRecords(lines, v);
    RecordsCount(lines);
  }

  // ---------------------------------------------------------------------------
  // read_fasta
  // ---------------------------------------------------------------------------

  function Lift(d: Dict<string, string>): (l: Dict<Option<string>, string>)
    ensures |l| == |d| && forall i :: 0 <= i < |d| ==> l[i] == (Some(d[i].0), d[i].1)
  {
    seq(|d|, i requires 0 <= i < |d| => (Some(d[i].0), d[i].1))
  }

  /** What `read_fasta` returns: `fasta_dict` (whose last key may be `None`), `identical` and `count`. */
  datatype FastaRead = FastaRead(fasta: Dict<Option<string>, string>, identical: Dict<string, seq<string>>, count: nat)

  /** `read_fasta` as written: the loop, then `fasta_dict[header] = seq` for the last record with no check. */
  function ReadFasta(lines: seq<string>): FastaRead
    requires NonEmptyLines(lines)
  {
    var st := ScanLines(lines, AsWritten);
    FastaRead(Put(Lift(st.kept.fasta), st.header, st.pending), st.kept.identical, st.count)
  }

  /**
    `read_fasta` in terms of records: `count` is the number of `>` lines; with
    none, the dict maps `None` to every line's text; otherwise the named
    records before the last go through `Keep` and the last is stored as it is.
   */
  lemma ReadFastaRecords(lines: seq<string>)
    requires NonEmptyLines(lines)
    ensures var r, rs := ReadFasta(lines), Records(lines);
      && r.count == |rs| == CountHeaderLines(lines)
      && (rs == [] ==> r.fasta == [(None, Concat(SeqParts(lines)))] && r.identical == [])
      && (rs != [] ==> r == FinalPut(rs))
  {
    ScanFollowsRecords(lines, AsWritten);
    RecordsCount(lines);
    var st := ScanLines(lines, AsWritten);
    PutShape(Lift(st.kept.fasta), st.header, st.pending);
  }

  lemma {:induction false} NamedHeaders(rs: seq<Record>)
    ensures forall h :: h in Headers(Named(rs)) ==> h in Headers(rs)
    ensures HeadersDistinct(rs) ==> HeadersDistinct(Named(rs))
    decreases |rs|
  {
    if rs != [] {
      var prev, r := rs[..|rs| - 1], rs[|rs| - 1];
      NamedHeaders(prev);
      assert prev + [r] == rs;
      SeqsSnoc(prev, r);
      var np := Named(prev);
      if r.header != "" {
        SeqsSnoc(np, r);
        if HeadersDistinct(rs) {
          LastHeaderNew(rs);
          assert r.header !in Headers(np);
          forall i, j | 0 <= i < j < |np| + 1
            ensures (np + [r])[i].header != (np + [r])[j].header
          {
            if j == |np| {
              assert Headers(np)[i] == np[i].header;
            }
          }
        }
      } else {
        assert Named(rs) == np;
      }
    }
  }

  lemma {:induction false} NamedAll(rs: seq<Record>)
    requires forall i :: 0 <= i < |rs| ==> rs[i].header != ""
    ensures Named(rs) == rs
    decreases |rs|
  {
    if rs != [] {
      var n := |rs| - 1;
      var prev, r := rs[..n], rs[n];
      assert forall i :: 0 <= i < |prev| ==> prev[i] == rs[i];
      NamedAll(prev);
      NamedSnoc(rs, prev, r);
    }
  }

  lemma NamedSnoc(rs: seq<Record>, prev: seq<Record>, r: Record)
    requires rs != [] && prev == rs[..|rs| - 1] && r == rs[|rs| - 1] && r.header != "" && Named(prev) == prev
    ensures Named(rs) == rs
  {
    assert prev + [r] == rs;
  }

  /** What `read_fasta` builds from a non-empty list of records: `Keep` over the named ones before the last, then the last stored as it is. */
  function FinalPut(rs: seq<Record>): FastaRead
    requires rs != []
  {
    var k, last := KeepAll(Named(rs[..|rs| - 1])), rs[|rs| - 1];
    FastaRead(Put(Lift(k.fasta), Some(last.header), last.sequence), k.identical, |rs|)
  }

  /**
    `r` holds, for the named records `named` before the last record `last`:
    in `fasta`, the first record of every sequence, then `last`; in
    `identical`, every later record of a kept sequence listed under the kept
    header, in input order, and no other key.
   */
  predicate FirstOccurrence(r: FastaRead, named: seq<Record>, last: Record) {
    && r.fasta == Lift(Firsts(named)) + [(Some(last.header), last.sequence)]
    && (forall i :: 0 <= i < |Firsts(named)| ==>
          Get(r.identical, Firsts(named)[i].0) == AsListed(Dups(named, Firsts(named)[i].1)))
    && (forall key :: key in Keys(r.identical) ==> key in Keys(Firsts(named)))
  }

  lemma FinalPutFirsts(rs: seq<Record>)
    requires rs != [] && HeadersDistinct(rs)
    ensures FirstOccurrence(FinalPut(rs), Named(rs[..|rs| - 1]), rs[|rs| - 1])
    ensures |Firsts(Named(rs[..|rs| - 1]))| + TotalLen(FinalPut(rs).identical) == |Named(rs[..|rs| - 1])|
  {
    var named, last := Named(rs[..|rs| - 1]), rs[|rs| - 1];
    NamedInitDistinct(rs);
    KeepAllDescribes(named);
    FinalPutShape(rs);
    DescribedFirsts(KeepAll(named), named, FinalPut(rs), last);
  }

  lemma NamedInitDistinct(rs: seq<Record>)
    requires rs != [] && HeadersDistinct(rs)
    ensures HeadersDistinct(Named(rs[..|rs| - 1]))
  {
    LastHeaderNew(rs);
    NamedHeaders(rs[..|rs| - 1]);
  }

  lemma DescribedFirsts(k: Kept, named: seq<Record>, r: FastaRead, last: Record)
    requires Describes(k, named) && r.identical == k.identical
    requires r.fasta == Lift(k.fasta) + [(Some(last.header), last.sequence)]
    ensures FirstOccurrence(r, named, last)
    ensures |Firsts(named)| + TotalLen(r.identical) == |named|
  {
  }

  /** The last record's header is new, so `fasta_dict[header] = seq` appends it. */
  lemma FinalPutShape(rs: seq<Record>)
    requires rs != [] && HeadersDistinct(rs)
    ensures var named, last := Named(rs[..|rs| - 1]), rs[|rs| - 1];
      FinalPut(rs).fasta == Lift(KeepAll(named).fasta) + [(Some(last.header), last.sequence)]
  {
    var init, last := rs[..|rs| - 1], rs[|rs| - 1];
    LastHeaderNew(rs);
    NamedHeaders(init);
    var named := Named(init);
    KeepAllDescribes(named);
    FirstsCover(named);
    var f := KeepAll(named).fasta;
    assert last.header !in Keys(f);
    LiftedKeyNew(f, last.header);
    PutShape(Lift(f), Some(last.header), last.sequence);
  }

  lemma LiftedKeyNew(f: Dict<string, string>, h: string)
    requires h !in Keys(f)
    ensures Some(h) !in Keys(Lift(f))
  {
    forall i | 0 <= i < |f|
      ensures Keys(Lift(f))[i] != Some(h)
    {
      assert Keys(f)[i] == f[i].0;
    }
  }

  /**
    First occurrence wins, for distinct headers: `fasta_dict` holds the first
    named record of every sequence among all records but the last, then the
    last record; `identical` lists every later named record under the header
    kept for its sequence, in input order, and nothing else.
   */
  lemma ReadFastaFirstOccurrence(lines: seq<string>)
    requires NonEmptyLines(lines) && Records(lines) != [] && HeadersDistinct(Records(lines))
    ensures var rs := Records(lines);
      FirstOccurrence(ReadFasta(lines), Named(rs[..|rs| - 1]), rs[|rs| - 1])
  {
    ReadFastaRecords(lines);
    FinalPutFirsts(Records(lines));
  }

  /**
    Conservation: when the file has a header line, all headers are distinct and
    every header but the last is non-empty, each `>` line ends up either as a
    key of `fasta_dict` or in one list of `identical`.
   */
  lemma ReadFastaConserves(lines: seq<string>)
    requires NonEmptyLines(lines) && Records(lines) != [] && HeadersDistinct(Records(lines))
    requires var rs := Records(lines); forall i :: 0 <= i < |rs| - 1 ==> rs[i].header != ""
    ensures var r := ReadFasta(lines); |r.fasta| + TotalLen(r.identical) == r.count
  {
    ReadFastaRecords(lines);
    FinalPutConserves(Records(lines));
  }

  lemma FinalPutConserves(rs: seq<Record>)
    requires rs != [] && HeadersDistinct(rs)
    requires forall i :: 0 <= i < |rs| - 1 ==> rs[i].header != ""
    ensures |FinalPut(rs).fasta| + TotalLen(FinalPut(rs).identical) == |rs|
  {
    var init := rs[..|rs| - 1];
    FinalPutFirsts(rs);
    assert forall i :: 0 <= i < |init| ==> init[i] == rs[i];
    NamedAll(init);
  }

  // ---------------------------------------------------------------------------
  // read_fasta, corrected
  // ---------------------------------------------------------------------------

  /** What the corrected reader returns: the dicts, with plain string keys, and `count`. */
  datatype Filtered = Filtered(fasta: Dict<string, string>, identical: Dict<string, seq<string>>, count: nat)

  /**
    `read_fasta` with both defects corrected: every finished record with a
    header, the last one included and an empty header included, goes through
    the same duplicate check.
   */
  function ReadFastaCorrected(lines: seq<string>): Filtered
    requires NonEmptyLines(lines)
  {
    var st := ScanLines(lines, Corrected);
    var k := if st.header.Some? then Keep(st.kept, st.header.value, st.pending) else st.kept;
    Filtered(k.fasta, k.identical, st.count)
  }

  /** The corrected reader is `KeepAll` over every record of the file. */
  lemma ReadFastaCorrectedRecords(lines: seq<string>)
    requires NonEmptyLines(lines)
    ensures var r, rs := ReadFastaCorrected(lines), Records(lines);
      r == Filtered(KeepAll(rs).fasta, KeepAll(rs).identical, |rs|) && r.count == CountHeaderLines(lines)
  {
    ScanFollowsRecords(lines, Corrected);
    RecordsCount(lines);
  }

  /**
    The corrected reader keeps sequences pairwise distinct on every input, and
    for distinct headers it keeps the first record of each sequence, lists every
    later one under it, and accounts for every `>` line exactly once.
   */
  lemma ReadFastaCorrectedSpec(lines: seq<string>)
    requires NonEmptyLines(lines)
    ensures var r := ReadFastaCorrected(lines);
      ValuesDistinct(r.fasta) && KeysDistinct(r.fasta) && KeysDistinct(r.identical)
    ensures var r, rs := ReadFastaCorrected(lines), Records(lines);
      HeadersDistinct(rs) ==>
        && Describes(Kept(r.fasta, r.identical), rs)
        && |r.fasta| + TotalLen(r.identical) == r.count
  {
    ReadFastaCorrectedRecords(lines);
    if HeadersDistinct(Records(lines)) {
      KeepAllDescribes(Records(lines));
    }
  }

  // ---------------------------------------------------------------------------
  // write_fasta
  // ---------------------------------------------------------------------------

  /** A header or sequence that reads back as itself: no line break, and no leading `>`. */
  predicate Writable(t: string) {
    '\n' !in t && '\r' !in t && (t == [] || t[0] != '>')
  }

  /** The lines `write_fasta` emits for a dict: `'>' + entry + '\n'`, then the sequence and `'\n'`. */
  function FastaLines(d: Dict<string, string>): (ls: seq<string>)
    ensures |ls| == 2 * |d| && NonEmptyLines(ls)
  {
    if d == [] then []
    else
      var (h, s) := d[|d| - 1];
      FastaLines(d[..|d| - 1]) + [">" + h + "\n"] + [s + "\n"]
  }

  /**
    Why `write_fasta` stops: `'>' + entry` with the key `None` raises a
    TypeError; `written` is what the file already holds by then.
   */
  datatype WriteError = NoneHeader(written: string)

  /** What `write_fasta` writes for one entry: `'>' + entry + '\n' + fasta_dict[entry] + '\n'`. */
  function FastaEntry(h: string, s: string): string {
    ">" + h + "\n" + s + "\n"
  }

  /** `write_fasta`'s output text: one entry per key, in dict order; a `None` key fails after the entries before it. */
  function WriteFasta(d: Dict<Option<string>, string>): (r: Result<string, WriteError>)
    ensures r.Success? <==> None !in Keys(d)
  {
    if d == [] then Success("")
    else
      var prev := d[..|d| - 1];
      assert Keys(d) == Keys(prev) + [d[|d| - 1].0];
      match WriteFasta(prev)
      case Failure(e) => Failure(e)
      case Success(text) =>
        match d[|d| - 1].0
        case None => Failure(NoneHeader(text))
        case Some(h) => Success(text + FastaEntry(h, d[|d| - 1].1))
  }

  /** The records a dict stands for, in dict order. */
  function DictRecords(d: Dict<string, string>): (rs: seq<Record>)
    ensures |rs| == |d|
  {
    seq(|d|, i requires 0 <= i < |d| => Record(d[i].0, d[i].1))
  }

  lemma HeaderOfWritten(h: string)
    requires Writable(h)
    ensures HeaderOf(">" + h + "\n") == h && IsLine(">" + h + "\n") && IsHeaderLine(">" + h + "\n")
  {
    var t := h + "\n";
    assert ">" + h + "\n" == ['>'] + t;
    assert t[0] != '>';
    LStripOnce('>', t);
    RStripNewline(h);
    assert (['>'] + t)[..|t|] == ['>'] + h;
  }

  lemma SeqPartWritten(s: string)
    requires Writable(s)
    ensures SeqPart(s + "\n") == s && IsLine(s + "\n") && !IsHeaderLine(s + "\n")
  {
    RStripNewline(s);
    assert (s + "\n")[..|s|] == s;
  }

  lemma WrittenIsLine(t: string)
    requires '\n' !in t
    ensures IsLine(t + "\n")
  {
    assert (t + "\n")[..|t|] == t;
  }

  /** The text `write_fasta` emits is the concatenation of its lines. */
  lemma {:induction false} WriteFastaLines(d: Dict<string, string>)
    ensures WriteFasta(Lift(d)) == Success(Concat(FastaLines(d)))
    decreases |d|
  {
    if d != [] {
      var n := |d| - 1;
      var (h, s) := d[n];
      WriteFastaLines(d[..n]);
      assert Lift(d)[..n] == Lift(d[..n]);
      var prefix := FastaLines(d[..n]);
      ConcatPair(prefix, ">" + h + "\n", s + "\n");
      EntryLines(h, s);
    }
  }

  /** The entry text is its two lines. */
  lemma EntryLines(h: string, s: string)
    ensures FastaEntry(h, s) == (">" + h + "\n") + (s + "\n")
  {
  }

  lemma ConcatPair(prefix: seq<string>, a: string, b: string)
    ensures Concat(prefix + [a] + [b]) == Concat(prefix) + (a + b)
  {
    ConcatSnoc(prefix, a);
    ConcatSnoc(prefix + [a], b);
  }

  /** Reading the lines of a written dict gives one record per entry, in dict order. */
  lemma {:induction false} RecordsOfFastaLines(d: Dict<string, string>)
    requires forall i :: 0 <= i < |d| ==> Writable(d[i].0) && Writable(d[i].1)
    ensures Records(FastaLines(d)) == DictRecords(d)
    decreases |d|
  {
    if d != [] {
      var n := |d| - 1;
      RecordsOfFastaLines(d[..n]);
      RecordsOfEntry(FastaLines(d[..n]), d[n].0, d[n].1, DictRecords(d[..n]));
      DictRecordsSnoc(d);
    }
  }

  /** The two lines written for one entry add its record. */
  lemma RecordsOfEntry(ls: seq<string>, h: string, s: string, prefix: seq<Record>)
    requires Writable(h) && Writable(s) && Records(ls) == prefix
    ensures Records(ls + [">" + h + "\n"] + [s + "\n"]) == prefix + [Record(h, s)]
  {
    HeaderOfWritten(h);
    SeqPartWritten(s);
    var hl, sl := ">" + h + "\n", s + "\n";
    RecordsOfPair(ls, ls + [hl], ls + [hl] + [sl], hl, sl, prefix);
  }

  lemma RecordsOfPair(ls: seq<string>, ls1: seq<string>, ls2: seq<string>, hl: string, sl: string, prefix: seq<Record>)
    requires ls1 == ls + [hl] && ls2 == ls1 + [sl] && IsHeaderLine(hl) && !IsHeaderLine(sl)
    requires Records(ls) == prefix
    ensures Records(ls2) == prefix + [Record(HeaderOf(hl), SeqPart(sl))]
  {
    RecordsSnoc(ls, hl);
    RecordsExtend(ls1, prefix, HeaderOf(hl), "", sl);
    assert "" + SeqPart(sl) == SeqPart(sl);
  }

  lemma DictRecordsSnoc(d: Dict<string, string>)
    requires d != []
    ensures DictRecords(d) == DictRecords(d[..|d| - 1]) + [Record(d[|d| - 1].0, d[|d| - 1].1)]
  {
    var n := |d| - 1;
    forall i | 0 <= i < n
      ensures DictRecords(d)[i] == DictRecords(d[..n])[i]
    {
    }
  }

  /**
    `write_fasta` round trip: a dict whose keys and sequences hold no newline
    and start with no `>` is written without error, its text reads back as
    the two lines per entry, and those lines group into the dict's records.
   */
  lemma WriteFastaRoundTrip(d: Dict<string, string>)
    requires forall i :: 0 <= i < |d| ==> Writable(d[i].0) && Writable(d[i].1)
    ensures WriteFasta(Lift(d)).Success?
    ensures ReadLines(WriteFasta(Lift(d)).value) == FastaLines(d)
    ensures Records(FastaLines(d)) == DictRecords(d)
  {
    WriteFastaLines(d);
    FastaLinesAreLines(d);
    ReadLinesOfConcat(FastaLines(d));
    RecordsOfFastaLines(d);
  }

  lemma {:induction false} FastaLinesAreLines(d: Dict<string, string>)
    requires forall i :: 0 <= i < |d| ==> Writable(d[i].0) && Writable(d[i].1)
    ensures forall k :: 0 <= k < |FastaLines(d)| ==> IsLine(FastaLines(d)[k])
    decreases |d|
  {
    if d != [] {
      var n := |d| - 1;
      FastaLinesAreLines(d[..n]);
      WrittenIsLine(">" + d[n].0);
      WrittenIsLine(d[n].1);
      var ls, hl, sl := FastaLines(d[..n]), ">" + d[n].0 + "\n", d[n].1 + "\n";
      var all := FastaLines(d);
      assert all == ls + [hl] + [sl];
      forall k | 0 <= k < |all|
        ensures IsLine(all[k])
      {
        if k < |ls| {
          assert all[k] == ls[k];
        } else if k == |ls| {
          assert all[k] == hl;
        } else {
          assert all[k] == sl;
        }
      }
    }
  }

  /** A `None` key after named entries: the file keeps the named entries, then the write fails. */
  lemma WriteFastaNoneLast(d: Dict<string, string>, s: string)
    ensures WriteFasta(Lift(d) + [(None, s)]) == Failure(NoneHeader(Concat(FastaLines(d))))
  {
    WriteFastaLines(d);
    assert (Lift(d) + [(None, s)])[..|d|] == Lift(d);
  }

  // ---------------------------------------------------------------------------
  // write_identical
  // ---------------------------------------------------------------------------

  /** What the inner loop of `write_identical` writes after a key: `'\t' + i` for every listed header. */
  function Tabbed(dups: seq<string>): string {
    if dups == [] then "" else "\t" + dups[0] + Tabbed(dups[1..])
  }

  /** The line `write_identical` writes for one entry. */
  function IdenticalLine(key: string, dups: seq<string>): string {
    key + Tabbed(dups) + "\n"
  }

  /** The text `write_identical` writes: one line per entry, in dict order. */
  function WriteIdentical(identical: Dict<string, seq<string>>): (text: string)
    ensures |text| >= |identical|
  {
    if identical == [] then ""
    else
      var (key, dups) := identical[|identical| - 1];
      WriteIdentical(identical[..|identical| - 1]) + IdenticalLine(key, dups)
  }

  /** The tab-separated fields of a line of the identical file: the key, then the headers listed under it. */
  function ParseIdenticalLine(line: string): (entry: (string, seq<string>)) {
    var fields := Split(RStrip(line, '\n'), '\t');
    (fields[0], fields[1..])
  }

  /** Reading the identical file back: one entry per line. */
  function ReadIdentical(text: string): (d: Dict<string, seq<string>>)
    ensures |d| == |ReadLines(text)|
  {
    var ls := ReadLines(text);
    seq(|ls|, i requires 0 <= i < |ls| => ParseIdenticalLine(ls[i]))
  }

  /** A header that survives the identical file: no tab and no line break. */
  predicate Plain(h: string) {
    '\t' !in h && '\n' !in h && '\r' !in h
  }

  predicate PlainEntries(identical: Dict<string, seq<string>>) {
    forall i :: 0 <= i < |identical| ==>
      Plain(identical[i].0) && forall j :: 0 <= j < |identical[i].1| ==> Plain(identical[i].1[j])
  }

  /** A key followed by its tabbed headers is the tab-join of them all. */
  lemma {:induction false} TabbedIsJoin(key: string, dups: seq<string>)
    ensures key + Tabbed(dups) == Join([key] + dups, "\t")
    decreases |dups|
  {
    if dups != [] {
      TabbedIsJoin(dups[0], dups[1..]);
      assert [dups[0]] + dups[1..] == dups;
      assert ([key] + dups)[1..] == dups;
    }
  }

  /** Joining pieces that avoid `c` with a separator other than `c` avoids `c`. */
  lemma {:induction false} JoinAvoids(parts: seq<string>, sep: char, c: char)
    requires sep != c
    requires forall i :: 0 <= i < |parts| ==> c !in parts[i]
    ensures c !in Join(parts, [sep])
    decreases |parts|
  {
    if |parts| > 1 {
      JoinAvoids(parts[1..], sep, c);
    }
  }

  /** One written line parses back as its entry. */
  lemma IdenticalLineRoundTrip(key: string, dups: seq<string>)
    requires Plain(key) && forall j :: 0 <= j < |dups| ==> Plain(dups[j])
    ensures IsLine(IdenticalLine(key, dups))
    ensures ParseIdenticalLine(IdenticalLine(key, dups)) == (key, dups)
  {
    var fields := [key] + dups;
    assert forall i :: 0 <= i < |fields| ==> Plain(fields[i]);
    TabbedIsJoin(key, dups);
    JoinAvoids(fields, '\t', '\n');
    var body := Join(fields, "\t");
    assert IdenticalLine(key, dups) == body + "\n";
    WrittenIsLine(body);
    RStripNewline(body);
    SplitOfJoin(fields, '\t');
    assert fields[1..] == dups;
  }

  /** The lines of the identical file. */
  function IdenticalLines(identical: Dict<string, seq<string>>): (ls: seq<string>)
    ensures |ls| == |identical|
  {
    seq(|identical|, i requires 0 <= i < |identical| => IdenticalLine(identical[i].0, identical[i].1))
  }

  lemma {:induction false} WriteIdenticalLines(identical: Dict<string, seq<string>>)
    ensures WriteIdentical(identical) == Concat(IdenticalLines(identical))
    decreases |identical|
  {
    if identical != [] {
      var n := |identical| - 1;
      WriteIdenticalLines(identical[..n]);
      assert IdenticalLines(identical) == IdenticalLines(identical[..n]) + [IdenticalLine(identical[n].0, identical[n].1)];
      ConcatSnoc(IdenticalLines(identical[..n]), IdenticalLine(identical[n].0, identical[n].1));
    }
  }

  /**
    `write_identical` round trip: when no key or listed header holds a tab or a
    newline, reading the written text line by line and splitting each line at
    its tabs gives back every entry, in order.
   */
  lemma IdenticalRoundTrip(identical: Dict<string, seq<string>>)
    requires PlainEntries(identical)
    ensures ReadLines(WriteIdentical(identical)) == IdenticalLines(identical)
    ensures ReadIdentical(WriteIdentical(identical)) == identical
  {
    var ls := IdenticalLines(identical);
    forall i | 0 <= i < |identical|
      ensures IsLine(ls[i]) && ParseIdenticalLine(ls[i]) == identical[i]
    {
      IdenticalLineRoundTrip(identical[i].0, identical[i].1);
    }
    WriteIdenticalLines(identical);
    ReadLinesOfConcat(ls);
  }

  // ---------------------------------------------------------------------------
  // The report and main
  // ---------------------------------------------------------------------------

  /** The report `main` prints: the number of `>` lines read, then the number of entries written. */
  function Report(count: int, filtered: int): string {
    "#Original: " + IntToString(count) + "\n#Filtered: " + IntToString(filtered)
  }

  /** Reading the two numbers back from a report, if it has the report's shape. */
  function ParseReport(text: string): (r: Option<(int, int)>) {
    var ls := Split(text, '\n');
    if |ls| != 2 || |ls[0]| < 11 || |ls[1]| < 11
       || ls[0][..11] != "#Original: " || ls[1][..11] != "#Filtered: " then None
    else
      match (IntValue(ls[0][11..]), IntValue(ls[1][11..]))
      case (Some(a), Some(b)) => Some((a, b))
      case _ => None
  }

  lemma NoNewlineInNumber(n: int)
    ensures '\n' !in IntToString(n)
  {
    var s := IntToString(n);
    forall i | 0 <= i < |s|
      ensures s[i] != '\n'
    {
      if n < 0 && i > 0 {
        assert s[i] == NatToString(-n)[i - 1];
      }
    }
  }

  lemma ParseReportLines(text: string, x: string, y: string, a: int, b: int)
    requires Split(text, '\n') == ["#Original: " + x, "#Filtered: " + y]
    requires IntValue(x) == Some(a) && IntValue(y) == Some(b)
    ensures ParseReport(text) == Some((a, b))
  {
    var l0, l1 := "#Original: " + x, "#Filtered: " + y;
    assert l0[..11] == "#Original: " && l0[11..] == x;
    assert l1[..11] == "#Filtered: " && l1[11..] == y;
  }

  lemma ReportSplit(x: string, y: string)
    requires '\n' !in x && '\n' !in y
    ensures Split("#Original: " + x + "\n#Filtered: " + y, '\n') == ["#Original: " + x, "#Filtered: " + y]
  {
    var a, b := "#Original: " + x, "#Filtered: " + y;
    assert a + "\n#Filtered: " + y == Join([a, b], "\n");
    SplitOfJoin([a, b], '\n');
  }

  /** The report loses nothing: both numbers read back from it. */
  lemma ReportRoundTrip(count: int, filtered: int)
    ensures ParseReport(Report(count, filtered)) == Some((count, filtered))
  {
    var x, y := IntToString(count), IntToString(filtered);
    NoNewlineInNumber(count);
    NoNewlineInNumber(filtered);
    ReportSplit(x, y);
    IntValueOfIntToString(count);
    IntValueOfIntToString(filtered);
    ParseReportLines(Report(count, filtered), x, y, count, filtered);
  }

  /**
    What running the script leaves behind: the output FASTA text, the
    identical file's text when one is written, and the printed report; or, when
    `write_fasta` raises, the output text written before it did.
   */
  datatype Outcome =
    | Finished(fasta: string, identical: Option<string>, report: string)
    | Crashed(fasta: string)

  /** `main(input, output, info)` on the lines of the input file; `info` is the optional path. */
  function Main(lines: seq<string>, info: Option<string>): Outcome
    requires NonEmptyLines(lines)
  {
    Finish(ReadFasta(lines), info)
  }

  /** The part of `main` after `read_fasta`: write the FASTA text, then the identical file if asked, then the report. */
  function Finish(r: FastaRead, info: Option<string>): Outcome {
    match WriteFasta(r.fasta)
    case Failure(NoneHeader(written)) => Crashed(written)
    case Success(text) =>
      var idText := if info.Some? && info.value != "" then Some(WriteIdentical(r.identical)) else None;
      Finished(text, idText, Report(r.count, |r.fasta|))
  }

  /**
    After reading, the script finishes exactly when no key is `None`; the
    identical file is written exactly when `info` is a non-empty path, and the
    report reads back as `count` and the number of entries.
   */
  lemma FinishOutcome(r: FastaRead, info: Option<string>)
    ensures var o := Finish(r, info);
      && (o.Finished? <==> None !in Keys(r.fasta))
      && (o.Finished? ==>
            && (o.identical.Some? <==> info.Some? && info.value != "")
            && ParseReport(o.report) == Some((r.count, |r.fasta|)))
  {
    ReportRoundTrip(r.count, |r.fasta|);
  }

  lemma NoneNotLifted(d: Dict<string, string>)
    ensures None !in Keys(Lift(d))
  {
    forall i | 0 <= i < |d|
      ensures Keys(Lift(d))[i] != None
    {
    }
  }

  /** With a header line, the final key is the last header and every other key a kept one, so none is `None`. */
  lemma FinalPutNamed(rs: seq<Record>)
    requires rs != []
    ensures None !in Keys(FinalPut(rs).fasta)
  {
    var k := KeepAll(Named(rs[..|rs| - 1]));
    NoneNotLifted(k.fasta);
  }

  /** Without a header line the only key is `None`, and the failing write leaves the file empty. */
  lemma FinishWithoutHeader(text: string, info: Option<string>)
    ensures Finish(FastaRead([(None, text)], [], 0), info) == Crashed("")
  {
    assert Lift([]) == [];
    WriteFastaNoneLast([], text);
  }

  /**
    The script finishes exactly when the input has a `>` line; without one it
    stops in `write_fasta` before writing anything. When it finishes, the
    identical file is written exactly when `info` is a non-empty path, and the
    report reads back as `count` and the number of entries written.
   */
  lemma MainOutcome(lines: seq<string>, info: Option<string>)
    requires NonEmptyLines(lines)
    ensures var o := Main(lines, info);
      && (o.Finished? <==> CountHeaderLines(lines) > 0)
      && (o.Crashed? ==> o.fasta == "")
      && (o.Finished? ==>
            && (o.identical.Some? <==> info.Some? && info.value != "")
            && ParseReport(o.report) == Some((CountHeaderLines(lines), |ReadFasta(lines).fasta|)))
  {
    var r := ReadFasta(lines);
    ReadFastaRecords(lines);
    FinishOutcome(r, info);
    if Records(lines) == [] {
      assert r == FastaRead([(None, Concat(SeqParts(lines)))], [], 0);
      FinishWithoutHeader(Concat(SeqParts(lines)), info);
    } else {
      FinalPutNamed(Records(lines));
    }
  }

  /** `main` with the corrected reader: every key is a header, so the write never fails. */
  function MainCorrected(lines: seq<string>, info: Option<string>): Outcome
    requires NonEmptyLines(lines)
  {
    var r := ReadFastaCorrected(lines);
    Finish(FastaRead(Lift(r.fasta), r.identical, r.count), info)
  }

  /**
    With the corrected reader the script always finishes; the report reads back
    as the number of `>` lines and the number of entries written, and for
    distinct headers the entries and the listed duplicates add up to that count.
   */
  lemma MainCorrectedOutcome(lines: seq<string>, info: Option<string>)
    requires NonEmptyLines(lines)
    ensures var o, r := MainCorrected(lines, info), ReadFastaCorrected(lines);
      && o.Finished?
      && (o.identical.Some? <==> info.Some? && info.value != "")
      && ParseReport(o.report) == Some((CountHeaderLines(lines), |r.fasta|))
      && (HeadersDistinct(Records(lines)) ==> |r.fasta| + TotalLen(r.identical) == CountHeaderLines(lines))
  {
    var r := ReadFastaCorrected(lines);
    ReadFastaCorrectedRecords(lines);
    ReadFastaCorrectedSpec(lines);
    NoneNotLifted(r.fasta);
    FinishOutcome(FastaRead(Lift(r.fasta), r.identical, r.count), info);
  }

  // ---------------------------------------------------------------------------
  // The two defects, on concrete files
  // ---------------------------------------------------------------------------

  /** The written file of two records, as its lines. */
  lemma TwoRecordLines(a: string, x: string, b: string, y: string)
    ensures FastaLines([(a, x), (b, y)]) == [">" + a + "\n", x + "\n", ">" + b + "\n", y + "\n"]
  {
    var d := [(a, x), (b, y)];
    assert d[..1] == [(a, x)];
    assert [(a, x)][..0] == [];
    assert FastaLines([(a, x)]) == [">" + a + "\n"] + [x + "\n"];
  }

  /** The written file of two records reads back as those two records. */
  lemma TwoRecordFile(a: string, x: string, b: string, y: string)
    requires Writable(a) && Writable(x) && Writable(b) && Writable(y)
    ensures Records(FastaLines([(a, x), (b, y)])) == [Record(a, x), Record(b, y)]
  {
    var d := [(a, x), (b, y)];
    RecordsOfFastaLines(d);
    assert DictRecords(d) == [Record(a, x), Record(b, y)];
  }

  /** `Keep` stores the first record of a file. */
  lemma KeepFirst(r: Record)
    ensures KeepAll([r]) == Kept([(r.header, r.sequence)], [])
  {
    assert [r][..0] == [];
    KeepOnce(Kept([], []), r.header, r.sequence);
    PutShape([], r.header, r.sequence);
  }

  lemma KeepAllSnoc(rs: seq<Record>, r: Record)
    ensures KeepAll(rs + [r]) == Keep(KeepAll(rs), r.header, r.sequence)
  {
    assert (rs + [r])[..|rs|] == rs;
  }

  /** Two records with the same sequence: the second is listed under the first. */
  lemma KeepSecondDuplicate(r1: Record, r2: Record)
    requires r1.sequence == r2.sequence
    ensures KeepAll([r1, r2]) == Kept([(r1.header, r1.sequence)], [(r1.header, [r2.header])])
  {
    assert [r1, r2] == [r1] + [r2];
    KeepAllSnoc([r1], r2);
    KeepFirst(r1);
    var k := Kept([(r1.header, r1.sequence)], []);
    SecondDuplicate(k, r1, r2);
  }

  lemma SecondDuplicate(k: Kept, r1: Record, r2: Record)
    requires k == Kept([(r1.header, r1.sequence)], []) && r1.sequence == r2.sequence
    ensures Keep(k, r2.header, r2.sequence) == Kept([(r1.header, r1.sequence)], [(r1.header, [r2.header])])
  {
    assert Values(k.fasta) == [r1.sequence];
    assert FindValue(k.fasta, r2.sequence) == 0;
    KeepOnce(k, r2.header, r2.sequence);
    assert Listed([], r1.header) + [r2.header] == [r2.header];
    assert Keys<string, seq<string>>([]) == [];
    PutShape([], r1.header, [r2.header]);
  }

  /** Two records with different sequences and headers: both are kept. */
  lemma KeepSecondNew(r1: Record, r2: Record)
    requires r1.sequence != r2.sequence && r1.header != r2.header
    ensures KeepAll([r1, r2]) == Kept([(r1.header, r1.sequence), (r2.header, r2.sequence)], [])
  {
    assert [r1, r2] == [r1] + [r2];
    KeepAllSnoc([r1], r2);
    KeepFirst(r1);
    var k := Kept([(r1.header, r1.sequence)], []);
    KeepOnce(k, r2.header, r2.sequence);
    assert Values(k.fasta) == [r1.sequence];
    assert Keys(k.fasta) == [r1.header];
    PutShape(k.fasta, r2.header, r2.sequence);
  }

  /** As written, the second of two records is stored whatever its sequence, and a named first record is kept. */
  lemma FinalPutOfTwo(r1: Record, r2: Record)
    requires r1.header != "" && r1.header != r2.header
    ensures FinalPut([r1, r2]).fasta == [(Some(r1.header), r1.sequence), (Some(r2.header), r2.sequence)]
  {
    assert [r1, r2][..1] == [r1] && [r1][..0] == [];
    assert Named([r1]) == [r1];
    KeepFirst(r1);
    var f := Lift([(r1.header, r1.sequence)]);
    assert Keys(f) == [Some(r1.header)];
    PutShape(f, Some(r2.header), r2.sequence);
  }

  /** As written, a first record with an empty header leaves no trace. */
  lemma FinalPutOfUnnamed(r1: Record, r2: Record)
    requires r1.header == ""
    ensures FinalPut([r1, r2]) == FastaRead([(Some(r2.header), r2.sequence)], [], 2)
  {
    assert [r1, r2][..1] == [r1] && [r1][..0] == [];
    assert Named([r1]) == [];
    assert Keys<Option<string>, string>([]) == [];
    PutShape([], Some(r2.header), r2.sequence);
  }

  /** Two records under one header with different sequences: the second overwrites the first in place. */
  lemma KeepSameHeader(a: string, x: string, y: string)
    requires x != y
    ensures KeepAll([Record(a, x), Record(a, y)]) == Kept([(a, y)], [])
  {
    var r1, r2 := Record(a, x), Record(a, y);
    assert [r1, r2] == [r1] + [r2];
    KeepAllSnoc([r1], r2);
    KeepFirst(r1);
    var k := Kept([(a, x)], []);
    assert Values(k.fasta) == [x];
    assert Keys(k.fasta) == [a];
    KeepOnce(k, a, y);
    PutShape(k.fasta, a, y);
  }

  /**
    A repeated header: `fasta_dict[header] = seq` replaces the kept entry, so
    the first record's sequence is neither kept nor listed as a duplicate.
   */
  lemma RepeatedHeaderOverwrites(a: string, b: string, x: string, y: string, z: string)
    requires Writable(a) && Writable(b) && Writable(x) && Writable(y) && Writable(z)
    requires a != "" && a != b && x != y
    ensures ReadFasta(FastaLines([(a, x), (a, y), (b, z)])) == FastaRead([(Some(a), y), (Some(b), z)], [], 3)
  {
    var d := [(a, x), (a, y), (b, z)];
    RecordsOfFastaLines(d);
    assert DictRecords(d) == [Record(a, x), Record(a, y), Record(b, z)];
    ReadFastaRecords(FastaLines(d));
    FinalPutOfRepeated(a, b, x, y, z);
  }

  lemma FinalPutOfRepeated(a: string, b: string, x: string, y: string, z: string)
    requires a != "" && a != b && x != y
    ensures FinalPut([Record(a, x), Record(a, y), Record(b, z)]) == FastaRead([(Some(a), y), (Some(b), z)], [], 3)
  {
    var rs, init := [Record(a, x), Record(a, y), Record(b, z)], [Record(a, x), Record(a, y)];
    assert rs[..2] == init;
    NamedAll(init);
    KeepSameHeader(a, x, y);
    var f := Lift([(a, y)]);
    assert Keys(f) == [Some(a)];
    PutShape(f, Some(b), z);
  }

  /**
    The last record skips the duplicate check: as written, a file of two
    records with the same sequence keeps both, so the sequences of
    `fasta_dict` are not distinct; corrected, the second is listed as a
    duplicate of the first.
   */
  lemma FinalRecordBypass(a: string, b: string, x: string)
    requires Writable(a) && Writable(b) && Writable(x) && a != "" && a != b
    ensures var lines := FastaLines([(a, x), (b, x)]);
      && lines == [">" + a + "\n", x + "\n", ">" + b + "\n", x + "\n"]
      && ReadFasta(lines).fasta == [(Some(a), x), (Some(b), x)]
      && !ValuesDistinct(ReadFasta(lines).fasta)
      && ReadFastaCorrected(lines) == Filtered([(a, x)], [(a, [b])], 2)
  {
    var lines := FastaLines([(a, x), (b, x)]);
    TwoRecordLines(a, x, b, x);
    TwoRecordFile(a, x, b, x);
    ReadFastaRecords(lines);
    ReadFastaCorrectedRecords(lines);
    FinalPutOfTwo(Record(a, x), Record(b, x));
    KeepSecondDuplicate(Record(a, x), Record(b, x));
  }

  /**
    An empty header is falsy: as written, the record under a bare `>` line is
    neither kept nor listed, so the two counts no longer add up to `count`;
    corrected, it is kept under the empty header.
   */
  lemma EmptyHeaderDropped(b: string, x: string, y: string)
    requires Writable(b) && Writable(x) && Writable(y) && b != "" && x != y
    ensures var lines := FastaLines([("", x), (b, y)]);
      && lines == [">\n", x + "\n", ">" + b + "\n", y + "\n"]
      && ReadFasta(lines) == FastaRead([(Some(b), y)], [], 2)
      && |ReadFasta(lines).fasta| + TotalLen(ReadFasta(lines).identical) != ReadFasta(lines).count
      && ReadFastaCorrected(lines) == Filtered([("", x), (b, y)], [], 2)
  {
    var lines := FastaLines([("", x), (b, y)]);
    TwoRecordLines("", x, b, y);
    assert ">" + "" + "\n" == ">\n";
    TwoRecordFile("", x, b, y);
    ReadFastaRecords(lines);
    ReadFastaCorrectedRecords(lines);
    FinalPutOfUnnamed(Record("", x), Record(b, y));
    KeepSecondNew(Record("", x), Record(b, y));
  }
}
