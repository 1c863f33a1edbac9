/** The scan of `main`: decode each manifest line in order, check every
    entry it yields against the filesystem, and collect the diagnostic
    lines in one list. A line that fails to decode and an exception from
    the verifier both end the scan before the log is written. */
module Scan {
  import opened Wrappers
  import opened Text
  import opened Manifest
  import opened Verifier

  /** Why a scan ended without a report. */
  datatype RunFault =
    | Malformed(error: DecodeError)  // parse_mtree_entry raised
    | Aborted(fault: Fault)          // validate_mtree_entry raised

  /** What a scan produces: the list written to the log, or the exception
      that ended it. */
  datatype RunOutcome = Report(errors: seq<string>) | Crash(fault: RunFault)

  /** `findings` reported before the rest of a scan whose outcome is `rest`. */
  function Prepend(findings: seq<string>, rest: RunOutcome): RunOutcome {
    match rest
    case Report(errs) => Report(findings + errs)
    case Crash(f) => Crash(f)
  }

  /** Sequential composition: a scan of `a` followed by a scan of `b`. */
  function Then(a: RunOutcome, b: RunOutcome): RunOutcome {
    match a
    case Report(errs) => Prepend(errs, b)
    case Crash(f) => Crash(f)
  }

  lemma ThenAssociative(a: RunOutcome, b: RunOutcome, c: RunOutcome)
    ensures Then(Then(a, b), c) == Then(a, Then(b, c))
  {
    if a.Report? && b.Report? && c.Report? {
      assert (a.errors + b.errors) + c.errors == a.errors + (b.errors + c.errors);
    }
  }

  /** One iteration of the loop in `main`: decode the line and, when it
      yields an entry, check that entry. */
  function Step(line: string, fs: FileSystem, hash: Bytes -> string): (r: RunOutcome)
    ensures r.Report? ==> Decode(line).Success? && |r.errors| <= 3
    ensures IsComment(line) ==> r == Report([])
  {
    match Decode(line)
    case Failure(err) => Crash(Malformed(err))
    case Success(None) => Report([])
    case Success(Some(e)) =>
      var checked := EntryCheck(e, fs, hash);
      if checked.fault.Some? then Crash(Aborted(checked.fault.value))
      else Report(checked.findings)
  }

  /** The whole scan of the manifest's lines. A report means every line
      decoded and no entry check raised; a report holds at most three
      lines per manifest line. */
  function Run(lines: seq<string>, fs: FileSystem, hash: Bytes -> string): (r: RunOutcome)
    ensures r.Report? ==> forall i :: 0 <= i < |lines| ==> Decode(lines[i]).Success?
    ensures r.Report? ==> |r.errors| <= 3 * |lines|
    ensures (forall i :: 0 <= i < |lines| ==> IsComment(lines[i])) ==> r == Report([])
  {
    if lines == [] then Report([])
    else Then(Step(lines[0], fs, hash), Run(lines[1..], fs, hash))
  }

  lemma RunFrom(lines: seq<string>, i: nat, fs: FileSystem, hash: Bytes -> string)
    requires i < |lines|
    ensures Run(lines[i..], fs, hash) == Then(Step(lines[i], fs, hash), Run(lines[i + 1..], fs, hash))
  {
    assert lines[i..][0] == lines[i] && lines[i..][1..] == lines[i + 1..];
  }

  lemma PrependTwice(a: seq<string>, b: seq<string>, rest: RunOutcome)
    ensures Prepend(a, Prepend(b, rest)) == Prepend(a + b, rest)
  {
    if rest.Report? {
      assert (a + b) + rest.errors == a + (b + rest.errors);
    }
  }

  /** The body of the loop in `main`: decode one line and check the entry
      it yields, appending to `errors`; the exception that ends the scan,
      if any, is returned. */
  method ScanLine(line: string, fs: FileSystem, hash: Bytes -> string, errors: ErrorList)
    returns (crash: Option<RunFault>)
    modifies errors
    ensures crash.None? <==> Step(line, fs, hash).Report?
    ensures crash.Some? ==> Step(line, fs, hash) == Crash(crash.value)
    ensures crash.None? ==> errors.items == old(errors.items) + Step(line, fs, hash).errors
  {
    var decoded := Decode(line);
    if decoded.Failure? {
      return Some(Malformed(decoded.error));
    }
    if decoded.value.Some? {
      var fault := ValidateEntry(decoded.value.value, fs, hash, errors);
      if fault.Some? {
        return Some(Aborted(fault.value));
      }
    }
    return None;
  }

  /** `main()` up to the log write. */
  method VerifyManifest(lines: seq<string>, fs: FileSystem, hash: Bytes -> string)
    returns (r: RunOutcome)
    ensures r == Run(lines, fs, hash)
  {
    var errors := new ErrorList();
    var i := 0;
    assert lines[i..] == lines;
    assert Prepend([], Run(lines, fs, hash)) == Run(lines, fs, hash);
    while i < |lines|
      invariant 0 <= i <= |lines|
      invariant Prepend(errors.items, Run(lines[i..], fs, hash)) == Run(lines, fs, hash)
    {
      RunFrom(lines, i, fs, hash);
      ghost var before := errors.items;
      var crash := ScanLine(lines[i], fs, hash, errors);
      if crash.Some? {
        return Crash(crash.value);
      }
      PrependTwice(before, Step(lines[i], fs, hash).errors, Run(lines[i + 1..], fs, hash));
      i := i + 1;
    }
    assert lines[i..] == [];
    r := Report(errors.items);
  }

  /** Scanning a manifest in two parts is scanning the first part and then
      the second: findings keep the manifest's order. */
  lemma {:induction false} RunConcat(a: seq<string>, b: seq<string>, fs: FileSystem, hash: Bytes -> string)
    ensures Run(a + b, fs, hash) == Then(Run(a, fs, hash), Run(b, fs, hash))
  {
    if a == [] {
      assert a + b == b;
    } else {
      assert (a + b)[0] == a[0] && (a + b)[1..] == a[1..] + b;
      RunConcat(a[1..], b, fs, hash);
      ThenAssociative(Step(a[0], fs, hash), Run(a[1..], fs, hash), Run(b, fs, hash));
    }
  }

  function WithoutComments(lines: seq<string>): (r: seq<string>)
    ensures forall i :: 0 <= i < |r| ==> !IsComment(r[i])
    ensures |r| <= |lines|
  {
    if lines == [] then []
    else if IsComment(lines[0]) then WithoutComments(lines[1..])
    else [lines[0]] + WithoutComments(lines[1..])
  }

  /** Comment lines contribute nothing: the scan of a manifest is the scan
      of its other lines. */
  lemma {:induction false} CommentsIgnored(lines: seq<string>, fs: FileSystem, hash: Bytes -> string)
    ensures Run(lines, fs, hash) == Run(WithoutComments(lines), fs, hash)
  {
    if lines != [] {
      CommentsIgnored(lines[1..], fs, hash);
      if !IsComment(lines[0]) {
        var w := [lines[0]] + WithoutComments(lines[1..]);
        assert w[0] == lines[0] && w[1..] == WithoutComments(lines[1..]);
      }
    }
  }

  /** Line `line` of a manifest decodes, and the entry it yields (if any)
      conforms to the filesystem. */
  ghost predicate LineConforms(line: string, fs: FileSystem, hash: Bytes -> string) {
    match Decode(line)
    case Failure(_) => false
    case Success(None) => true
    case Success(Some(e)) => Conforms(e, fs, hash)
  }

  /** The log is written and empty exactly when every line decodes and
      every entry conforms to the live filesystem. */
  lemma {:induction false} CleanReportIff(lines: seq<string>, fs: FileSystem, hash: Bytes -> string)
    ensures Run(lines, fs, hash) == Report([]) <==>
      forall i :: 0 <= i < |lines| ==> LineConforms(lines[i], fs, hash)
  {
    if lines != [] {
      CleanReportIff(lines[1..], fs, hash);
      StepCleanIff(lines[0], fs, hash);
      ThenEmpty(Step(lines[0], fs, hash), Run(lines[1..], fs, hash));
      AllConformCons(lines, fs, hash);
    }
  }

  lemma AllConformCons(lines: seq<string>, fs: FileSystem, hash: Bytes -> string)
    requires lines != []
    ensures (forall i :: 0 <= i < |lines| ==> LineConforms(lines[i], fs, hash)) <==>
      LineConforms(lines[0], fs, hash) &&
      forall i :: 0 <= i < |lines[1..]| ==> LineConforms(lines[1..][i], fs, hash)
  {
    assert forall i :: 1 <= i < |lines| ==> lines[1..][i - 1] == lines[i];
  }

  lemma StepCleanIff(line: string, fs: FileSystem, hash: Bytes -> string)
    ensures Step(line, fs, hash) == Report([]) <==> LineConforms(line, fs, hash)
  {
    var d := Decode(line);
    if d.Success? && d.value.Some? {
      EntryCleanIff(d.value.value, fs, hash);
    }
  }

  lemma ThenEmpty(a: RunOutcome, b: RunOutcome)
    ensures Then(a, b) == Report([]) <==> a == Report([]) && b == Report([])
  {
  }

  /** A blank line in the manifest ends the scan: `line[1:]` has no fields
      to unpack. */
  lemma BlankLineEndsScan(line: string, rest: seq<string>, fs: FileSystem, hash: Bytes -> string)
    requires |line| > 0 && AllSpace(line)
    ensures Run([line] + rest, fs, hash) == Crash(Malformed(FieldCount(5, 0)))
  {
    assert !IsComment(line);
    assert AllSpace(Body(line));
    AllSpaceSplitsToNothing(Body(line), 4);
    assert ([line] + rest)[0] == line;
  }

  lemma {:induction false} AllSpaceSplitsToNothing(s: string, k: nat)
    requires AllSpace(s)
    ensures Split(s) == [] && SplitMax(s, k) == []
  {
  }

  /** The reference result for a list of entries: each entry's check in
      order, stopping at the first one that raises. */
  function CheckAll(entries: seq<Entry>, fs: FileSystem, hash: Bytes -> string): RunOutcome {
    if entries == [] then Report([])
    else
      var checked := EntryCheck(entries[0], fs, hash);
      if checked.fault.Some? then Crash(Aborted(checked.fault.value))
      else Prepend(checked.findings, CheckAll(entries[1..], fs, hash))
  }

  function EncodeAll(entries: seq<Entry>): (lines: seq<string>)
    ensures |lines| == |entries|
  {
    if entries == [] then [] else [Encode(entries[0])] + EncodeAll(entries[1..])
  }

  /** Scanning a manifest written from well-formed entries checks exactly
      those entries, in order. */
  lemma {:induction false} RunOfEncoded(entries: seq<Entry>, fs: FileSystem, hash: Bytes -> string)
    requires forall i :: 0 <= i < |entries| ==> Encodable(entries[i])
    ensures Run(EncodeAll(entries), fs, hash) == CheckAll(entries, fs, hash)
  {
    if entries != [] {
      DecodeEncode(entries[0]);
      RunOfEncoded(entries[1..], fs, hash);
      var lines := EncodeAll(entries);
      assert lines[0] == Encode(entries[0]) && lines[1..] == EncodeAll(entries[1..]);
    }
  }
}
