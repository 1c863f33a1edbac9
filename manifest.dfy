/** The manifest line decoder, `parse_mtree_entry`: one line of the mtree
    manifest becomes an entry, nothing (a comment), or a decode failure
    (the exception Python raises). */
module Manifest {
  import opened Wrappers
  import opened Text

  /** `MTREE_ENTRY`. The entry type is kept as the text the line carries
      (`type` is spelled `kind` here). */
  datatype Entry = Entry(
    fname: string,
    mode: string,
    uid: int,
    gid: int,
    kind: string,
    link: Option<string>,
    size: Option<int>,
    sha256: Option<string>)

  /** Why a line does not decode: the Python exception it raises. */
  datatype DecodeError =
    | FieldCount(expected: nat, found: nat)  // ValueError from tuple unpacking
    | NoValue(token: string)                 // IndexError from `token.split('=')[1]`
    | NotAnInteger(text: string)             // ValueError from `int(text)`

  predicate IsComment(line: string) {
    |line| > 0 && line[0] == '#'
  }

  /** `line[1:]`: the line without its first character. */
  function Body(line: string): string {
    if line == [] then [] else line[1..]
  }

  /** `line[1:].split(maxsplit=4)`. */
  function Fields(line: string): seq<string> {
    SplitMax(Body(line), 4)
  }

  /** `token.split('=')[1]`: the text between the first and second `=`. */
  function FieldValue(token: string): Result<string, DecodeError> {
    var parts := SplitOn(token, '=');
    if |parts| < 2 then Failure(NoValue(token)) else Success(parts[1])
  }

  /** `int(token.split('=')[1])`. */
  function IntValue(token: string): Result<int, DecodeError> {
    var text :- FieldValue(token);
    match ParseInt(text)
    case None => Failure(NotAnInteger(text))
    case Some(n) => Success(n)
  }

  /** Mode, uid and gid, read from the 2nd, 4th and 3rd fields in that order. */
  function Header(fields: seq<string>): Result<(string, int, int), DecodeError>
    requires |fields| == 5
  {
    var mode :- FieldValue(fields[1]);
    var uid :- IntValue(fields[3]);
    var gid :- IntValue(fields[2]);
    Success((mode, uid, gid))
  }

  /** The entry of a `type=dir` line: nothing after `type=dir` is read. */
  function DecodeDir(fields: seq<string>): Result<Entry, DecodeError>
    requires |fields| == 5
  {
    var (mode, uid, gid) :- Header(fields);
    Success(Entry(fields[0], mode, uid, gid, "dir", None, None, None))
  }

  /** The entry of a `type=link` line: exactly two tokens after the gid. */
  function DecodeLink(fields: seq<string>): Result<Entry, DecodeError>
    requires |fields| == 5
  {
    var rest := Split(fields[4]);
    if |rest| != 2 then Failure(FieldCount(2, |rest|))
    else
      var (mode, uid, gid) :- Header(fields);
      var target :- FieldValue(rest[1]);
      Success(Entry(fields[0], mode, uid, gid, "link", Some(target), None, None))
  }

  /** The entry of any other line: type, size and digest tokens. */
  function DecodeOther(fields: seq<string>): Result<Entry, DecodeError>
    requires |fields| == 5
  {
    var rest := Split(fields[4]);
    if |rest| != 3 then Failure(FieldCount(3, |rest|))
    else
      var (mode, uid, gid) :- Header(fields);
      var kind :- FieldValue(rest[0]);
      var size :- IntValue(rest[1]);
      var sha :- FieldValue(rest[2]);
      Success(Entry(fields[0], mode, uid, gid, kind, None, Some(size), Some(sha)))
  }

  /** The five fields of a line, dispatched on the prefix of the fifth. */
  function DecodeFields(fields: seq<string>): (r: Result<Entry, DecodeError>)
    requires |fields| == 5
    ensures r.Success? ==>
      var e, extra := r.value, fields[4];
      e.fname == fields[0] &&
      FieldValue(fields[1]) == Success(e.mode) &&
      IntValue(fields[2]) == Success(e.gid) &&
      IntValue(fields[3]) == Success(e.uid) &&
      (StartsWith(extra, "type=dir") ==>
        e.kind == "dir" && e.link == None && e.size == None && e.sha256 == None) &&
      (!StartsWith(extra, "type=dir") && StartsWith(extra, "type=link") ==>
        e.kind == "link" && e.link.Some? && e.size == None && e.sha256 == None &&
        |Split(extra)| == 2 && FieldValue(Split(extra)[1]) == Success(e.link.value)) &&
      (!StartsWith(extra, "type=dir") && !StartsWith(extra, "type=link") ==>
        e.link == None && e.size.Some? && e.sha256.Some? && |Split(extra)| == 3 &&
        FieldValue(Split(extra)[0]) == Success(e.kind) &&
        IntValue(Split(extra)[1]) == Success(e.size.value) &&
        FieldValue(Split(extra)[2]) == Success(e.sha256.value))
    ensures IntValue(fields[2]).Failure? || IntValue(fields[3]).Failure? ==> r.Failure?
  {
    if StartsWith(fields[4], "type=dir") then DecodeDir(fields)
    else if StartsWith(fields[4], "type=link") then DecodeLink(fields)
    else DecodeOther(fields)
  }

  /** `parse_mtree_entry(line)`: `Success(None)` for a comment, an entry,
      or the failure Python raises. */
  function Decode(line: string): (r: Result<Option<Entry>, DecodeError>)
    ensures r == Success(None) <==> IsComment(line)
  {
    if IsComment(line) then Success(None)
    else
      var fields := Fields(line);
      if |fields| != 5 then Failure(FieldCount(5, |fields|))
      else
        var e :- DecodeFields(fields);
        Success(Some(e))
  }

  /** When `split(maxsplit=4)` yields five fields, the first four are the
      first four whitespace-separated tokens. */
  lemma FiveFields(s: string)
    ensures |SplitMax(s, 4)| == 5 <==> |Split(s)| >= 5
    ensures |SplitMax(s, 4)| < 5 ==> |SplitMax(s, 4)| == |Split(s)|
    ensures |SplitMax(s, 4)| == 5 ==> SplitMax(s, 4)[..4] == Split(s)[..4]
  {
    SplitMaxAgrees(s, 4);
  }

  /** The path is the first whitespace-separated token of `line[1:]`; mode,
      gid and uid are the values of the 2nd, 3rd and 4th tokens, whatever
      their keys. */
  lemma FieldPositions(line: string, e: Entry)
    requires Decode(line) == Success(Some(e))
    ensures var tokens := Split(Body(line));
      |tokens| >= 5 &&
      e.fname == tokens[0] &&
      FieldValue(tokens[1]) == Success(e.mode) &&
      IntValue(tokens[2]) == Success(e.gid) &&
      IntValue(tokens[3]) == Success(e.uid)
  {
    var fields, tokens := Fields(line), Split(Body(line));
    FiveFields(Body(line));
    assert DecodeFields(fields) == Success(e);
    assert fields[..4][0] == fields[0] && fields[..4][1] == fields[1];
    assert fields[..4][2] == fields[2] && fields[..4][3] == fields[3];
    assert tokens[..4][0] == tokens[0] && tokens[..4][1] == tokens[1];
    assert tokens[..4][2] == tokens[2] && tokens[..4][3] == tokens[3];
  }

  /** A line that is not a comment fails to decode when it has fewer than
      five fields, when a `type=link` remainder is not two tokens, when any
      other non-dir remainder is not three tokens, or when its uid, gid or
      size is not an integer. */
  lemma DecodeFailures(line: string)
    requires !IsComment(line)
    ensures |Split(Body(line))| < 5 ==>
      Decode(line) == Failure(FieldCount(5, |Split(Body(line))|))
    ensures |Fields(line)| == 5 ==>
      (IntValue(Fields(line)[2]).Failure? || IntValue(Fields(line)[3]).Failure?) ==>
      Decode(line).Failure?
    ensures |Fields(line)| == 5 ==> RemainderFailures(Fields(line)) ==> Decode(line).Failure?
  {
    FiveFields(Body(line));
  }

  /** The shapes of the fifth field that make decoding fail whatever the
      first four hold. */
  predicate RemainderFailures(fields: seq<string>)
    requires |fields| == 5
  {
    var extra := fields[4];
    !StartsWith(extra, "type=dir") &&
    if StartsWith(extra, "type=link") then |Split(extra)| != 2
    else |Split(extra)| != 3 || IntValue(Split(extra)[1]).Failure?
  }

  /** A `type=dir` entry is read from the first four fields alone. */
  lemma DirReadsFourFields(f1: seq<string>, f2: seq<string>)
    requires |f1| == 5 && |f2| == 5 && f1[..4] == f2[..4]
    ensures DecodeDir(f1) == DecodeDir(f2)
  {
    assert f1[0] == f1[..4][0] && f1[1] == f1[..4][1] && f1[2] == f1[..4][2] && f1[3] == f1[..4][3];
    assert f2[0] == f2[..4][0] && f2[1] == f2[..4][1] && f2[2] == f2[..4][2] && f2[3] == f2[..4][3];
  }

  /** Nothing after `type=dir` is inspected: two lines whose first four
      fields agree and whose remainders both start with `type=dir` decode
      alike, whatever else those remainders hold. */
  lemma DirRemainderIgnored(line1: string, line2: string)
    requires !IsComment(line1) && !IsComment(line2)
    requires |Fields(line1)| == 5 && |Fields(line2)| == 5
    requires Fields(line1)[..4] == Fields(line2)[..4]
    requires StartsWith(Fields(line1)[4], "type=dir") && StartsWith(Fields(line2)[4], "type=dir")
    ensures Decode(line1) == Decode(line2)
  {
    DirReadsFourFields(Fields(line1), Fields(line2));
  }

  /** A `key=value` token. */
  function Keyed(key: string, value: string): string {
    key + "=" + value
  }

  /** Text that can stand as a value after `key=`: no whitespace, no `=`. */
  predicate IsValueText(s: string) {
    forall i :: 0 <= i < |s| ==> !IsSpace(s[i]) && s[i] != '='
  }

  /** The entries a manifest line can describe exactly: a path token, and
      optional fields as the entry's type demands. A type other than `dir`
      and `link` must not itself pass the prefix tests. */
  predicate Encodable(e: Entry) {
    IsToken(e.fname) && IsValueText(e.mode) &&
    if e.kind == "dir" then
      e.link == None && e.size == None && e.sha256 == None
    else if e.kind == "link" then
      e.link.Some? && IsValueText(e.link.value) && e.size == None && e.sha256 == None
    else
      e.link == None && e.size.Some? && e.sha256.Some? &&
      IsValueText(e.kind) && IsValueText(e.sha256.value) &&
      !StartsWith(Keyed("type", e.kind), "type=dir") && !StartsWith(Keyed("type", e.kind), "type=link")
  }

  function TypeTokens(e: Entry): seq<string> {
    if e.kind == "dir" then ["type=dir"]
    else if e.kind == "link" then ["type=link", Keyed("link", e.link.GetOr(""))]
    else [Keyed("type", e.kind), Keyed("size", IntText(e.size.GetOr(0))), Keyed("sha256", e.sha256.GetOr(""))]
  }

  function Tokens(e: Entry): seq<string> {
    [e.fname, Keyed("mode", e.mode), Keyed("gid", IntText(e.gid)), Keyed("uid", IntText(e.uid))] + TypeTokens(e)
  }

  /** The manifest line for an entry: a `.` marker before the path, then
      the key=value tokens in the order the decoder reads them. */
  function Encode(e: Entry): string {
    "." + (JoinSpaced(Tokens(e)) + "\n")
  }

  lemma KeyValueField(key: string, value: string)
    requires '=' !in key && '=' !in value
    ensures FieldValue(Keyed(key, value)) == Success(value)
  {
    KeyValueSplit(key, value);
  }

  lemma KeyIntField(key: string, n: int)
    requires '=' !in key
    ensures IntValue(Keyed(key, IntText(n))) == Success(n)
  {
    var text := IntText(n);
    KeyValueField(key, text);
    ParseIntText(n);
  }

  lemma ValueTextHasNoEquals(s: string)
    requires IsValueText(s)
    ensures '=' !in s && NoSpace(s)
  {
  }

  lemma ValueTokenIsToken(key: string, value: string)
    requires IsToken(key) && IsValueText(value)
    ensures IsToken(Keyed(key, value))
  {
    var t := Keyed(key, value);
    forall i | 0 <= i < |t|
      ensures !IsSpace(t[i])
    {
      if i > |key| {
        assert t[i] == value[i - |key| - 1];
      }
    }
  }

  lemma IntTokenIsToken(key: string, n: int)
    requires IsToken(key)
    ensures IsToken(Keyed(key, IntText(n)))
  {
    var text := IntText(n);
    assert IsValueText(text) by {
      forall i | 0 <= i < |text|
        ensures !IsSpace(text[i]) && text[i] != '='
      {
        assert IsDigit(text[i]) || text[i] == '-';
      }
    }
    ValueTokenIsToken(key, text);
  }

  /** A prefix test that fails on `a` still fails once whitespace follows. */
  lemma PrefixStopsAtSpace(a: string, b: string, prefix: string)
    requires !StartsWith(a, prefix) && NoSpace(prefix)
    requires |b| > 0 && IsSpace(b[0])
    ensures !StartsWith(a + b, prefix)
  {
    if |a| >= |prefix| {
      assert (a + b)[..|prefix|] == a[..|prefix|];
    } else if |prefix| <= |a + b| {
      assert (a + b)[..|prefix|][|a|] == b[0] != prefix[|a|];
    }
  }

  lemma KeyTokens()
    ensures IsToken("mode") && IsToken("gid") && IsToken("uid") && IsToken("link")
    ensures IsToken("type") && IsToken("size") && IsToken("sha256")
  {
  }

  lemma TypeTokensOfEncodable(e: Entry)
    requires Encodable(e)
    ensures forall i :: 0 <= i < |TypeTokens(e)| ==> IsToken(TypeTokens(e)[i])
  {
    KeyTokens();
    if e.kind == "dir" {
      assert IsToken("type=dir");
    } else if e.kind == "link" {
      assert IsToken("type=link");
      ValueTokenIsToken("link", e.link.value);
    } else {
      ValueTokenIsToken("type", e.kind);
      IntTokenIsToken("size", e.size.value);
      ValueTokenIsToken("sha256", e.sha256.value);
    }
  }

  lemma TokensOfEncodable(e: Entry)
    requires Encodable(e)
    ensures |Tokens(e)| >= 5 && forall i :: 0 <= i < |Tokens(e)| ==> IsToken(Tokens(e)[i])
  {
    var head := [e.fname, Keyed("mode", e.mode), Keyed("gid", IntText(e.gid)), Keyed("uid", IntText(e.uid))];
    HeadTokensOfEncodable(e, head);
    TypeTokensOfEncodable(e);
    AllTokensConcat(head, TypeTokens(e));
  }

  lemma HeadTokensOfEncodable(e: Entry, head: seq<string>)
    requires Encodable(e)
    requires head == [e.fname, Keyed("mode", e.mode), Keyed("gid", IntText(e.gid)), Keyed("uid", IntText(e.uid))]
    ensures forall i :: 0 <= i < |head| ==> IsToken(head[i])
  {
    KeyTokens();
    ValueTokenIsToken("mode", e.mode);
    IntTokenIsToken("gid", e.gid);
    IntTokenIsToken("uid", e.uid);
  }

  lemma AllTokensConcat(a: seq<string>, b: seq<string>)
    requires forall i :: 0 <= i < |a| ==> IsToken(a[i])
    requires forall i :: 0 <= i < |b| ==> IsToken(b[i])
    ensures forall i :: 0 <= i < |a + b| ==> IsToken((a + b)[i])
  {
    forall i | 0 <= i < |a + b|
      ensures IsToken((a + b)[i])
    {
      if i >= |a| {
        assert (a + b)[i] == b[i - |a|];
      } else {
        assert (a + b)[i] == a[i];
      }
    }
  }

  /** The five fields of an encoded line. */
  lemma FieldsOfEncode(e: Entry)
    requires Encodable(e)
    ensures Fields(Encode(e)) == Tokens(e)[..4] + [JoinSpaced(TypeTokens(e)) + "\n"]
  {
    TokensOfEncodable(e);
    var ts := Tokens(e);
    BodyAfterMarker(JoinSpaced(ts) + "\n");
    SplitMaxJoinSpaced(ts, "\n", 4);
    assert ts[4..] == TypeTokens(e);
  }

  lemma BodyAfterMarker(s: string)
    ensures Body("." + s) == s
  {
  }

  lemma HeaderOfEncode(e: Entry, fields: seq<string>)
    requires Encodable(e) && |fields| == 5 && fields[..4] == Tokens(e)[..4]
    ensures Header(fields) == Success((e.mode, e.uid, e.gid))
  {
    var ts := Tokens(e);
    assert fields[1] == ts[1] && fields[2] == ts[2] && fields[3] == ts[3];
    HeaderOfKeys(fields, e.mode, e.uid, e.gid);
  }

  lemma HeaderOfKeys(fields: seq<string>, mode: string, uid: int, gid: int)
    requires |fields| == 5 && IsValueText(mode)
    requires fields[1] == Keyed("mode", mode)
    requires fields[2] == Keyed("gid", IntText(gid))
    requires fields[3] == Keyed("uid", IntText(uid))
    ensures Header(fields) == Success((mode, uid, gid))
  {
    ValueTextHasNoEquals(mode);
    KeyValueField("mode", mode);
    KeyIntField("gid", gid);
    KeyIntField("uid", uid);
  }

  lemma DecodeFieldsOfEncode(e: Entry)
    requires Encodable(e)
    ensures DecodeFields(Tokens(e)[..4] + [JoinSpaced(TypeTokens(e)) + "\n"]) == Success(e)
  {
    var fields := Tokens(e)[..4] + [JoinSpaced(TypeTokens(e)) + "\n"];
    assert fields[..4] == Tokens(e)[..4];
    assert fields[0] == e.fname;
    HeaderOfEncode(e, fields);
    TypeTokensOfEncodable(e);
    SplitJoinSpaced(TypeTokens(e), "\n");
    if e.kind == "dir" {
      assert fields[4] == "type=dir\n";
      assert StartsWith(fields[4], "type=dir");
    } else if e.kind == "link" {
      DecodeLinkOfEncode(e, fields);
    } else {
      DecodeOtherOfEncode(e, fields);
    }
  }

  lemma OtherPassesNoPrefixTest(first: string, after: string)
    requires !StartsWith(first, "type=dir") && !StartsWith(first, "type=link")
    requires |after| > 0 && after[0] == ' '
    ensures !StartsWith(first + after, "type=dir") && !StartsWith(first + after, "type=link")
  {
    assert NoSpace("type=dir") && NoSpace("type=link");
    PrefixStopsAtSpace(first, after, "type=dir");
    PrefixStopsAtSpace(first, after, "type=link");
  }

  lemma LinkRemainderPrefix(target: string)
    ensures var extra := "type=link" + " " + Keyed("link", target) + "\n";
      !StartsWith(extra, "type=dir") && StartsWith(extra, "type=link")
  {
    var extra := "type=link" + " " + Keyed("link", target) + "\n";
    assert extra[5] == 'l';
    assert extra[..9] == "type=link";
  }

  lemma DecodeLinkOfEncode(e: Entry, fields: seq<string>)
    requires Encodable(e) && e.kind == "link"
    requires |fields| == 5 && fields[0] == e.fname && fields[4] == JoinSpaced(TypeTokens(e)) + "\n"
    requires Header(fields) == Success((e.mode, e.uid, e.gid))
    requires Split(fields[4]) == TypeTokens(e)
    ensures !StartsWith(fields[4], "type=dir") && StartsWith(fields[4], "type=link")
    ensures DecodeLink(fields) == Success(e)
  {
    var target := e.link.value;
    assert TypeTokens(e) == ["type=link", Keyed("link", target)];
    assert fields[4] == "type=link" + " " + Keyed("link", target) + "\n";
    LinkRemainderPrefix(target);
    DecodeLinkOfTokens(fields, target, (e.mode, e.uid, e.gid));
  }

  lemma DecodeLinkOfTokens(fields: seq<string>, target: string, header: (string, int, int))
    requires |fields| == 5 && IsValueText(target)
    requires Split(fields[4]) == ["type=link", Keyed("link", target)]
    requires Header(fields) == Success(header)
    ensures DecodeLink(fields) ==
      Success(Entry(fields[0], header.0, header.1, header.2, "link", Some(target), None, None))
  {
    ValueTextHasNoEquals(target);
    KeyValueField("link", target);
  }

  lemma OtherTokenValues(e: Entry)
    requires Encodable(e) && e.kind != "dir" && e.kind != "link"
    ensures var types := TypeTokens(e);
      |types| == 3 &&
      FieldValue(types[0]) == Success(e.kind) &&
      IntValue(types[1]) == Success(e.size.value) &&
      FieldValue(types[2]) == Success(e.sha256.value)
  {
    var types := TypeTokens(e);
    ValueTextHasNoEquals(e.kind);
    ValueTextHasNoEquals(e.sha256.value);
    KeyValueField("type", e.kind);
    KeyIntField("size", e.size.value);
    KeyValueField("sha256", e.sha256.value);
  }

  lemma DecodeOtherOfEncode(e: Entry, fields: seq<string>)
    requires Encodable(e) && e.kind != "dir" && e.kind != "link"
    requires |fields| == 5 && fields[0] == e.fname && fields[4] == JoinSpaced(TypeTokens(e)) + "\n"
    requires Header(fields) == Success((e.mode, e.uid, e.gid))
    requires Split(fields[4]) == TypeTokens(e)
    ensures !StartsWith(fields[4], "type=dir") && !StartsWith(fields[4], "type=link")
    ensures DecodeOther(fields) == Success(e)
  {
    OtherRemainderPrefix(e);
    OtherTokenValues(e);
  }

  lemma OtherRemainderPrefix(e: Entry)
    requires Encodable(e) && e.kind != "dir" && e.kind != "link"
    ensures var extra := JoinSpaced(TypeTokens(e)) + "\n";
      !StartsWith(extra, "type=dir") && !StartsWith(extra, "type=link")
  {
    var types := TypeTokens(e);
    var after := [' '] + (JoinSpaced(types[1..]) + "\n");
    JoinSpacedCons(types, "\n");
    assert types[0] == Keyed("type", e.kind);
    OtherPassesNoPrefixTest(types[0], after);
  }

  /** Decoding the line written for an entry gives that entry back. */
  lemma DecodeEncode(e: Entry)
    requires Encodable(e)
    ensures Decode(Encode(e)) == Success(Some(e))
  {
    FieldsOfEncode(e);
    DecodeFieldsOfEncode(e);
    assert !IsComment(Encode(e));
  }
}
