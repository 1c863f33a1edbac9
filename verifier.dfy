/** The entry verifier, `validate_mtree_entry` and
    `validate_file_sha256sum`: compare one decoded entry with the live
    filesystem and append a diagnostic line per mismatch to the caller's
    error list. The filesystem and SHA-256 are abstract. */
module Verifier {
  import opened Wrappers
  import opened Text
  import opened Manifest

  type Bytes = seq<bv8>

  /** The fields of an `lstat` result the verifier reads. */
  datatype Stat = Stat(uid: int, gid: int, mode: nat)

  /** The live filesystem as the verifier sees it. `lstat` describes each
      path without following a final symlink; a path it lacks is one for
      which `lstat` raises FileNotFoundError. `contents` gives the bytes
      that `open(path, 'rb')` reads; a path it lacks is one `open` cannot
      read (a directory, a dangling link, ...). */
  datatype FileSystem = FileSystem(lstat: map<string, Stat>, contents: map<string, Bytes>)

  /** An exception that escapes the verifier and ends the whole run. */
  datatype Fault =
    | OwnerAssertion(path: string)  // AssertionError from the uid/gid asserts
    | Unreadable(path: string)      // open() raised while hashing

  /** What checking one entry does: the lines it appends, in order, and the
      exception it ends with, if any. */
  datatype Outcome = Outcome(findings: seq<string>, fault: Option<Fault>)

  // st_mode bit layout, as the stat module defines it (octal in comments).

  /** `st_mode & 0o170000`, the file type bits. */
  function FileTypeBits(mode: nat): nat {
    (mode / 4096) % 16 * 4096
  }

  /** `S_ISDIR`: the type bits are 0o040000. */
  predicate IsDirMode(mode: nat) {
    FileTypeBits(mode) == 16384
  }

  /** `S_ISREG`: the type bits are 0o100000. */
  predicate IsRegMode(mode: nat) {
    FileTypeBits(mode) == 32768
  }

  /** `S_ISLNK`: the type bits are 0o120000. */
  predicate IsLnkMode(mode: nat) {
    FileTypeBits(mode) == 40960
  }

  /** `S_IMODE`: `st_mode & 0o7777`, the permission bits. */
  function PermissionBits(mode: nat): nat {
    mode % 4096
  }

  function MissingMessage(path: string): string {
    path + ": file does not exist."
  }

  function TypeMessage(path: string): string {
    path + ": incorrect file type."
  }

  function HashMessage(path: string, expected: string, got: string): string {
    path + ": expected: " + expected + ", got: " + got
  }

  /** The `got mode` line prints `oct()` in full, `0o` included. */
  function ModeMessage(path: string, got: string, expected: string): string {
    path + ": got mode 0o" + got + ", expected: " + expected
  }

  /** How an f-string prints the entry's digest: `None` when it has none. */
  function DigestText(sha256: Option<string>): string {
    match sha256
    case Some(d) => d
    case None => "None"
  }

  /** The type check of `validate_mtree_entry`: only `dir`, `file` and
      `link` entries have one. */
  predicate TypeMatches(kind: string, mode: nat) {
    (kind == "dir" ==> IsDirMode(mode)) &&
    (kind == "file" ==> IsRegMode(mode)) &&
    (kind == "link" ==> IsLnkMode(mode))
  }

  /** The two ownership asserts of `validate_mtree_entry`. */
  predicate OwnerMatches(e: Entry, st: Stat) {
    st.uid == e.uid && st.gid == e.gid
  }

  /** What `validate_file_sha256sum` does: hash what `open` reads and report
      a digest that differs from the entry's, naming both. */
  function HashCheck(e: Entry, fs: FileSystem, hash: Bytes -> string): (r: Outcome)
    ensures |r.findings| <= 1
    ensures r.fault.Some? <==> e.fname !in fs.contents
    ensures r.fault.Some? ==> r == Outcome([], Some(Unreadable(e.fname)))
    ensures r.fault.None? ==>
      (r.findings == [] <==> e.sha256 == Some(hash(fs.contents[e.fname])))
  {
    if e.fname !in fs.contents then Outcome([], Some(Unreadable(e.fname)))
    else
      var digest := hash(fs.contents[e.fname]);
      if Some(digest) == e.sha256 then Outcome([], None)
      else Outcome([HashMessage(e.fname, DigestText(e.sha256), digest)], None)
  }

  /** What `validate_mtree_entry` does for one entry. */
  function EntryCheck(e: Entry, fs: FileSystem, hash: Bytes -> string): (r: Outcome)
    ensures e.fname !in fs.lstat ==> r == Outcome([MissingMessage(e.fname)], None)
    ensures e.fname in fs.lstat && !OwnerMatches(e, fs.lstat[e.fname]) ==>
      r == Outcome([], Some(OwnerAssertion(e.fname)))
    ensures |r.findings| <= (if e.kind == "file" then 3 else 2)
    ensures r.fault.Some? ==>
      r.fault == Some(OwnerAssertion(e.fname)) ||
      (e.kind == "file" && r.fault == Some(Unreadable(e.fname)))
  {
    if e.fname !in fs.lstat then Outcome([MissingMessage(e.fname)], None)
    else
      var st := fs.lstat[e.fname];
      if !OwnerMatches(e, st) then Outcome([], Some(OwnerAssertion(e.fname)))
      else
        var typeFindings := if TypeMatches(e.kind, st.mode) then [] else [TypeMessage(e.fname)];
        var hashed := if e.kind == "file" then HashCheck(e, fs, hash) else Outcome([], None);
        if hashed.fault.Some? then Outcome(typeFindings, hashed.fault)
        else
          var got := Octal(PermissionBits(st.mode));
          var modeFindings := if got != e.mode then [ModeMessage(e.fname, got, e.mode)] else [];
          Outcome(typeFindings + hashed.findings + modeFindings, None)
  }

  /** The live path agrees with the entry in everything the verifier
      looks at; the permission bits are compared as numbers, and the
      entry's mode must be written the way `oct()` writes it. */
  ghost predicate Conforms(e: Entry, fs: FileSystem, hash: Bytes -> string) {
    e.fname in fs.lstat &&
    var st := fs.lstat[e.fname];
    OwnerMatches(e, st) &&
    TypeMatches(e.kind, st.mode) &&
    (e.kind == "file" ==> e.fname in fs.contents && e.sha256 == Some(hash(fs.contents[e.fname]))) &&
    IsCanonicalOctal(e.mode) && OctalValue(e.mode) == PermissionBits(st.mode)
  }

  /** An entry is checked without a finding and without a fault exactly when
      the live path conforms to it. */
  lemma EntryCleanIff(e: Entry, fs: FileSystem, hash: Bytes -> string)
    ensures EntryCheck(e, fs, hash) == Outcome([], None) <==> Conforms(e, fs, hash)
  {
    if e.fname in fs.lstat {
      OctalTextIff(PermissionBits(fs.lstat[e.fname].mode), e.mode);
    }
  }

  /** The three kinds of finding can be told apart by the text after the path. */
  lemma MessagesDiffer(path: string, got: string, expected: string, want: string, digest: string)
    ensures TypeMessage(path) != ModeMessage(path, got, expected)
    ensures HashMessage(path, want, digest) != ModeMessage(path, got, expected)
    ensures TypeMessage(path) != HashMessage(path, want, digest)
  {
    var k := |path| + 2;
    assert TypeMessage(path)[k] == 'i';
    assert ModeMessage(path, got, expected)[k] == 'g';
    assert HashMessage(path, want, digest)[k] == 'e';
  }

  /** For an existing, correctly owned path whose check raises nothing: a
      type finding is reported exactly when the type bits are wrong, and
      comes first; a mode finding is reported exactly when the `oct()` text
      of the permission bits differs from the entry's mode, and comes last;
      between them sit exactly the hash check's lines for a `file` entry, and
      nothing for any other kind. */
  lemma FindingsInCheckOrder(e: Entry, fs: FileSystem, hash: Bytes -> string)
    requires e.fname in fs.lstat && OwnerMatches(e, fs.lstat[e.fname])
    requires EntryCheck(e, fs, hash).fault == None
    ensures var r, st := EntryCheck(e, fs, hash), fs.lstat[e.fname];
      var got := Octal(PermissionBits(st.mode));
      (TypeMessage(e.fname) in r.findings <==> !TypeMatches(e.kind, st.mode)) &&
      (TypeMessage(e.fname) in r.findings ==> r.findings[0] == TypeMessage(e.fname)) &&
      (ModeMessage(e.fname, got, e.mode) in r.findings <==> got != e.mode) &&
      (ModeMessage(e.fname, got, e.mode) in r.findings ==>
        r.findings[|r.findings| - 1] == ModeMessage(e.fname, got, e.mode))
    ensures var r, st := EntryCheck(e, fs, hash), fs.lstat[e.fname];
      var t := if TypeMatches(e.kind, st.mode) then 0 else 1;
      var h := if e.kind == "file" then HashCheck(e, fs, hash).findings else [];
      var m := if Octal(PermissionBits(st.mode)) != e.mode then 1 else 0;
      |r.findings| == t + |h| + m && r.findings[t..t + |h|] == h
  {
    var r, st := EntryCheck(e, fs, hash), fs.lstat[e.fname];
    var got := Octal(PermissionBits(st.mode));
    var typeFindings := if TypeMatches(e.kind, st.mode) then [] else [TypeMessage(e.fname)];
    var h := if e.kind == "file" then HashCheck(e, fs, hash).findings else [];
    var modeFindings := if got != e.mode then [ModeMessage(e.fname, got, e.mode)] else [];
    assert r.findings == typeFindings + h + modeFindings;
    var digest := if e.fname in fs.contents then hash(fs.contents[e.fname]) else "";
    var hashLine := HashMessage(e.fname, DigestText(e.sha256), digest);
    MessagesDiffer(e.fname, got, e.mode, DigestText(e.sha256), digest);
    assert forall m :: m in h ==> m == hashLine;
    ThreePartLayout(r.findings, typeFindings, h, modeFindings,
      TypeMessage(e.fname), hashLine, ModeMessage(e.fname, got, e.mode));
  }

  /** A list made of an optional first line, lines all equal to a third
      text, and an optional last line, the three texts distinct. */
  lemma ThreePartLayout(r: seq<string>, first: seq<string>, middle: seq<string>, last: seq<string>,
                        x: string, z: string, y: string)
    requires r == first + middle + last
    requires first == [] || first == [x]
    requires last == [] || last == [y]
    requires forall m :: m in middle ==> m == z
    requires x != y && x != z && y != z
    ensures x in r <==> first == [x]
    ensures x in r ==> r[0] == x
    ensures y in r <==> last == [y]
    ensures y in r ==> r[|r| - 1] == y
    ensures |r| == |first| + |middle| + |last|
    ensures r[|first|..|first| + |middle|] == middle
  {
    assert x !in middle && y !in middle;
    assert r[|first|..|first| + |middle|] == middle;
  }

  predicate Contains(s: string, part: string) {
    exists i :: 0 <= i <= |s| && StartsWith(s[i..], part)
  }

  /** A digest mismatch is reported with both the expected and the computed
      digest in its text. */
  lemma HashFindingNamesBothDigests(e: Entry, fs: FileSystem, hash: Bytes -> string)
    requires HashCheck(e, fs, hash).findings != []
    ensures e.fname in fs.contents
    ensures var m := HashCheck(e, fs, hash).findings[0];
      Contains(m, DigestText(e.sha256)) && Contains(m, hash(fs.contents[e.fname]))
  {
    var expected, digest := DigestText(e.sha256), hash(fs.contents[e.fname]);
    var m := HashMessage(e.fname, expected, digest);
    var i := |e.fname| + 12;
    var j := i + |expected| + 7;
    assert m[i..][..|expected|] == expected;
    assert m[j..][..|digest|] == digest;
  }

  /** A mode written with a leading zero (`0755`) never equals what `oct()`
      writes, so it is reported on every existing, correctly owned path
      whose check raises nothing. */
  lemma ZeroPaddedModeAlwaysReported(e: Entry, fs: FileSystem, hash: Bytes -> string)
    requires |e.mode| > 1 && e.mode[0] == '0'
    requires e.fname in fs.lstat && OwnerMatches(e, fs.lstat[e.fname])
    requires EntryCheck(e, fs, hash).fault == None
    ensures var got := Octal(PermissionBits(fs.lstat[e.fname].mode));
      ModeMessage(e.fname, got, e.mode) in EntryCheck(e, fs, hash).findings
  {
    FindingsInCheckOrder(e, fs, hash);
  }

  /** A `file` entry is hashed even when its type check failed: the type
      finding comes first and the hash check's outcome follows it. */
  lemma FileHashedDespiteWrongType(e: Entry, fs: FileSystem, hash: Bytes -> string)
    requires e.kind == "file" && e.fname in fs.lstat
    requires OwnerMatches(e, fs.lstat[e.fname]) && !IsRegMode(fs.lstat[e.fname].mode)
    ensures var r, h := EntryCheck(e, fs, hash), HashCheck(e, fs, hash);
      r.fault == h.fault && |r.findings| >= 1 + |h.findings| &&
      r.findings[..1 + |h.findings|] == [TypeMessage(e.fname)] + h.findings
  {
  }

  /** An entry whose type is not `dir`, `file` or `link` only has its mode
      checked. */
  lemma OtherKindOnlyModeChecked(e: Entry, fs: FileSystem, hash: Bytes -> string)
    requires e.kind != "dir" && e.kind != "file" && e.kind != "link"
    requires e.fname in fs.lstat && OwnerMatches(e, fs.lstat[e.fname])
    ensures var got := Octal(PermissionBits(fs.lstat[e.fname].mode));
      EntryCheck(e, fs, hash) ==
        Outcome(if got == e.mode then [] else [ModeMessage(e.fname, got, e.mode)], None)
  {
  }

  /** A `dir` entry whose path is a regular file with the right owner and
      mode yields exactly one finding, the type finding. */
  lemma DirectoryFoundAsFile(e: Entry, fs: FileSystem, hash: Bytes -> string)
    requires e.kind == "dir" && e.fname in fs.contents
    requires Conforms(e.(kind := "file", sha256 := Some(hash(fs.contents[e.fname]))), fs, hash)
    ensures EntryCheck(e, fs, hash) == Outcome([TypeMessage(e.fname)], None)
  {
    OctalTextIff(PermissionBits(fs.lstat[e.fname].mode), e.mode);
  }

  /** A `file` entry that matches in everything but its digest yields
      exactly one finding, the digest mismatch. */
  lemma WrongDigestOnly(e: Entry, fs: FileSystem, hash: Bytes -> string)
    requires e.kind == "file" && e.fname in fs.contents
    requires e.sha256 != Some(hash(fs.contents[e.fname]))
    requires Conforms(e.(sha256 := Some(hash(fs.contents[e.fname]))), fs, hash)
    ensures EntryCheck(e, fs, hash) ==
      Outcome([HashMessage(e.fname, DigestText(e.sha256), hash(fs.contents[e.fname]))], None)
  {
    OctalTextIff(PermissionBits(fs.lstat[e.fname].mode), e.mode);
  }

  /** The caller's `errors` list: it only ever grows at the end. */
  class ErrorList {
    var items: seq<string>

    constructor ()
      ensures items == []
    {
      items := [];
    }

    method Append(message: string)
      modifies this
      ensures items == old(items) + [message]
    {
      items := items + [message];
    }
  }

  /** `validate_file_sha256sum(entry, errors)`. */
  method ValidateFileSha256sum(e: Entry, fs: FileSystem, hash: Bytes -> string, errors: ErrorList)
    returns (fault: Option<Fault>)
    modifies errors
    ensures errors.items == old(errors.items) + HashCheck(e, fs, hash).findings
    ensures fault == HashCheck(e, fs, hash).fault
  {
    if e.fname !in fs.contents {
      return Some(Unreadable(e.fname));
    }
    var digest := hash(fs.contents[e.fname]);
    if Some(digest) != e.sha256 {
      errors.Append(HashMessage(e.fname, DigestText(e.sha256), digest));
    }
    return None;
  }

  /** `validate_mtree_entry(entry, errors)`. */
  method ValidateEntry(e: Entry, fs: FileSystem, hash: Bytes -> string, errors: ErrorList)
    returns (fault: Option<Fault>)
    modifies errors
    ensures errors.items == old(errors.items) + EntryCheck(e, fs, hash).findings
    ensures fault == EntryCheck(e, fs, hash).fault
  {
    if e.fname !in fs.lstat {
      errors.Append(MissingMessage(e.fname));
      return None;
    }
    var st := fs.lstat[e.fname];
    if st.uid != e.uid || st.gid != e.gid {
      // the ownership asserts fail
      return Some(OwnerAssertion(e.fname));
    }
    if e.kind == "dir" {
      if !IsDirMode(st.mode) {
        errors.Append(TypeMessage(e.fname));
      }
    } else if e.kind == "file" {
      if !IsRegMode(st.mode) {
        errors.Append(TypeMessage(e.fname));
      }
      fault := ValidateFileSha256sum(e, fs, hash, errors);
      if fault.Some? {
        return;
      }
    } else if e.kind == "link" {
      if !IsLnkMode(st.mode) {
        errors.Append(TypeMessage(e.fname));
      }
    }
    var got := Octal(PermissionBits(st.mode));
    if got != e.mode {
      errors.Append(ModeMessage(e.fname, got, e.mode));
    }
    return None;
  }
}
