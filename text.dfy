/** The pieces of Python's string handling the manifest decoder and the
    verifier rely on: `str.split()` with and without `maxsplit`,
    `str.split(sep)`, `int()` on a token, and `oct()`. */
module Text {
  import opened Wrappers

  /** The code points for which Python's `str.isspace()` holds. */
  predicate IsSpace(c: char) {
    var n := c as int;
    (9 <= n <= 13) || (28 <= n <= 32) || n == 0x85 || n == 0xA0 || n == 0x1680 ||
    (0x2000 <= n <= 0x200A) || n == 0x2028 || n == 0x2029 || n == 0x202F ||
    n == 0x205F || n == 0x3000
  }

  predicate NoSpace(s: string) {
    forall i :: 0 <= i < |s| ==> !IsSpace(s[i])
  }

  /** What `str.split()` can yield: a non-empty run of non-whitespace. */
  predicate IsToken(s: string) {
    |s| > 0 && NoSpace(s)
  }

  predicate StartsWith(s: string, prefix: string) {
    |prefix| <= |s| && s[..|prefix|] == prefix
  }

  /** Number of whitespace characters `s` starts with. */
  function SpaceLength(s: string): (n: nat)
    ensures n <= |s|
    ensures n < |s| ==> !IsSpace(s[n])
    decreases |s|
  {
    if s != [] && IsSpace(s[0]) then 1 + SpaceLength(s[1..]) else 0
  }

  /** `s` with its leading whitespace removed. */
  function TrimStart(s: string): (r: string)
    ensures r == [] || !IsSpace(r[0])
  {
    s[SpaceLength(s)..]
  }

  /** Length of the longest whitespace-free prefix of `s`. */
  function WordLength(s: string): (n: nat)
    ensures n <= |s| && NoSpace(s[..n])
    ensures n < |s| ==> IsSpace(s[n])
    decreases |s|
  {
    if s == [] || IsSpace(s[0]) then 0
    else
      var m := WordLength(s[1..]);
      assert s[..m + 1] == [s[0]] + s[1..][..m];
      m + 1
  }

  /** `s.split()`: the maximal whitespace-free runs of `s`, in order. */
  function Split(s: string): (r: seq<string>)
    ensures forall i :: 0 <= i < |r| ==> IsToken(r[i])
    decreases |s|
  {
    var t := TrimStart(s);
    if t == [] then []
    else
      var n := WordLength(t);
      [t[..n]] + Split(t[n..])
  }

  /** `s.split(maxsplit=k)`: at most `k` leading runs, then the rest of the
      string from the next non-whitespace character, trailing whitespace kept. */
  function SplitMax(s: string, k: nat): (r: seq<string>)
    ensures |r| <= k + 1
    ensures forall i :: 0 <= i < |r| ==> |r[i]| > 0
    decreases k
  {
    var t := TrimStart(s);
    if t == [] then []
    else if k == 0 then [t]
    else
      var n := WordLength(t);
      [t[..n]] + SplitMax(t[n..], k - 1)
  }

  /** The first `k` pieces of `split(maxsplit=k)` are those of `split()`, and
      splitting the remainder again gives the rest of `split()`. */
  lemma {:induction false} SplitMaxAgrees(s: string, k: nat)
    ensures |Split(s)| <= k ==> SplitMax(s, k) == Split(s)
    ensures |Split(s)| > k ==>
      |SplitMax(s, k)| == k + 1 &&
      SplitMax(s, k)[..k] == Split(s)[..k] &&
      Split(SplitMax(s, k)[k]) == Split(s)[k..]
    decreases k
  {
    var t := TrimStart(s);
    if t == [] {
      assert Split(s) == [] && SplitMax(s, k) == [];
    } else if k == 0 {
      SplitMaxZero(s);
    } else {
      var n := WordLength(t);
      var w, rest := t[..n], t[n..];
      assert Split(s) == [w] + Split(rest);
      assert SplitMax(s, k) == [w] + SplitMax(rest, k - 1);
      SplitMaxAgrees(rest, k - 1);
      SplitMaxAgreesStep(w, Split(rest), SplitMax(rest, k - 1), k);
    }
  }

  lemma SplitMaxZero(s: string)
    requires TrimStart(s) != []
    ensures SplitMax(s, 0) == [TrimStart(s)]
    ensures Split(TrimStart(s)) == Split(s)
  {
    var t := TrimStart(s);
    assert TrimStart(t) == t;
  }

  lemma SplitMaxAgreesStep(w: string, whole: seq<string>, pieces: seq<string>, k: nat)
    requires k >= 1
    requires |whole| <= k - 1 ==> pieces == whole
    requires |whole| > k - 1 ==>
      |pieces| == k && pieces[..k - 1] == whole[..k - 1] && Split(pieces[k - 1]) == whole[k - 1..]
    ensures |[w] + whole| <= k ==> [w] + pieces == [w] + whole
    ensures |[w] + whole| > k ==>
      |[w] + pieces| == k + 1 &&
      ([w] + pieces)[..k] == ([w] + whole)[..k] &&
      Split(([w] + pieces)[k]) == ([w] + whole)[k..]
  {
    if |whole| > k - 1 {
      ConsKeepsPrefix(w, whole, pieces, k);
    }
  }

  lemma ConsKeepsPrefix<T>(w: T, whole: seq<T>, pieces: seq<T>, k: nat)
    requires 1 <= k && |pieces| == k && k - 1 < |whole|
    requires pieces[..k - 1] == whole[..k - 1]
    ensures |[w] + pieces| == k + 1
    ensures ([w] + pieces)[..k] == ([w] + whole)[..k]
    ensures ([w] + pieces)[k] == pieces[k - 1]
    ensures ([w] + whole)[k..] == whole[k - 1..]
  {
    assert ([w] + pieces)[..k] == [w] + pieces[..k - 1];
    assert ([w] + whole)[..k] == [w] + whole[..k - 1];
  }

  /** Tokens joined by single spaces. */
  function JoinSpaced(ts: seq<string>): string
    requires |ts| > 0
  {
    if |ts| == 1 then ts[0] else ts[0] + " " + JoinSpaced(ts[1..])
  }

  predicate AllSpace(s: string) {
    forall i :: 0 <= i < |s| ==> IsSpace(s[i])
  }

  lemma {:induction false} WordLengthOfToken(w: string, r: string)
    requires IsToken(w)
    requires r == [] || IsSpace(r[0])
    ensures WordLength(w + r) == |w|
    decreases |w|
  {
    if |w| > 1 {
      assert (w + r)[1..] == w[1..] + r;
      WordLengthOfToken(w[1..], r);
    } else {
      assert (w + r)[1..] == r;
    }
  }

  lemma SplitToken(w: string, r: string)
    requires IsToken(w)
    requires r == [] || IsSpace(r[0])
    ensures Split(w + r) == [w] + Split(r)
  {
    assert TrimStart(w + r) == w + r;
    WordLengthOfToken(w, r);
    assert (w + r)[..|w|] == w && (w + r)[|w|..] == r;
  }

  lemma SplitSkipsSpace(c: char, r: string)
    requires IsSpace(c)
    ensures Split([c] + r) == Split(r)
  {
    assert ([c] + r)[1..] == r;
    assert TrimStart([c] + r) == TrimStart(r);
  }

  /** `split()` undoes joining tokens with single spaces, whatever trailing
      whitespace (such as the line's newline) follows. */
  lemma {:induction false} SplitJoinSpaced(ts: seq<string>, tail: string)
    requires |ts| > 0 && forall i :: 0 <= i < |ts| ==> IsToken(ts[i])
    requires AllSpace(tail)
    ensures Split(JoinSpaced(ts) + tail) == ts
    decreases |ts|
  {
    if |ts| == 1 {
      SplitToken(ts[0], tail);
      assert TrimStart(tail) == [];
    } else {
      SplitJoinSpaced(ts[1..], tail);
      SplitJoinSpacedStep(ts, tail);
    }
  }

  lemma SplitJoinSpacedStep(ts: seq<string>, tail: string)
    requires |ts| > 1 && IsToken(ts[0])
    requires Split(JoinSpaced(ts[1..]) + tail) == ts[1..]
    ensures Split(JoinSpaced(ts) + tail) == ts
  {
    var rest := JoinSpaced(ts[1..]) + tail;
    JoinSpacedCons(ts, tail);
    SplitAfterToken(ts[0], rest);
    assert [ts[0]] + ts[1..] == ts;
  }

  lemma SplitAfterToken(w: string, rest: string)
    requires IsToken(w)
    ensures Split(w + ([' '] + rest)) == [w] + Split(rest)
  {
    var spaced := [' '] + rest;
    assert spaced[0] == ' ';
    SplitToken(w, spaced);
    SplitSkipsSpace(' ', rest);
  }

  lemma SplitMaxToken(w: string, r: string, k: nat)
    requires IsToken(w) && k > 0
    requires r == [] || IsSpace(r[0])
    ensures SplitMax(w + r, k) == [w] + SplitMax(r, k - 1)
  {
    assert TrimStart(w + r) == w + r;
    WordLengthOfToken(w, r);
    assert (w + r)[..|w|] == w && (w + r)[|w|..] == r;
  }

  /** `split(maxsplit=k)` of tokens joined by single spaces: the first `k`
      tokens, then the rest of the line as one piece. */
  lemma {:induction false} SplitMaxJoinSpaced(ts: seq<string>, tail: string, k: nat)
    requires |ts| > k && forall i :: 0 <= i < |ts| ==> IsToken(ts[i])
    requires AllSpace(tail)
    ensures SplitMax(JoinSpaced(ts) + tail, k) == ts[..k] + [JoinSpaced(ts[k..]) + tail]
    decreases k
  {
    if k == 0 {
      JoinSpacedStart(ts, tail);
      SplitMaxWhole(JoinSpaced(ts) + tail);
      assert ts[0..] == ts;
    } else {
      SplitMaxJoinSpaced(ts[1..], tail, k - 1);
      SplitMaxJoinSpacedStep(ts, tail, k);
    }
  }

  lemma SplitMaxJoinSpacedStep(ts: seq<string>, tail: string, k: nat)
    requires 0 < k < |ts| && IsToken(ts[0])
    requires SplitMax(JoinSpaced(ts[1..]) + tail, k - 1) ==
      ts[1..][..k - 1] + [JoinSpaced(ts[1..][k - 1..]) + tail]
    ensures SplitMax(JoinSpaced(ts) + tail, k) == ts[..k] + [JoinSpaced(ts[k..]) + tail]
  {
    var tl := ts[1..];
    assert tl[k - 1..] == ts[k..];
    JoinSpacedCons(ts, tail);
    SplitMaxAfterToken(ts[0], JoinSpaced(tl) + tail, k, tl[..k - 1], JoinSpaced(ts[k..]) + tail);
    assert [ts[0]] + tl[..k - 1] == ts[..k];
  }

  lemma SplitMaxAfterToken(w: string, rest: string, k: nat, front: seq<string>, last: string)
    requires IsToken(w) && k > 0
    requires SplitMax(rest, k - 1) == front + [last]
    ensures SplitMax(w + ([' '] + rest), k) == ([w] + front) + [last]
  {
    var spaced := [' '] + rest;
    assert spaced[0] == ' ';
    SplitMaxToken(w, spaced, k);
    SplitMaxSkipsSpace(' ', rest, k - 1);
    assert SplitMax(spaced, k - 1) == front + [last];
    assert [w] + (front + [last]) == ([w] + front) + [last];
  }

  lemma JoinSpacedCons(ts: seq<string>, tail: string)
    requires |ts| > 1
    ensures JoinSpaced(ts) + tail == ts[0] + ([' '] + (JoinSpaced(ts[1..]) + tail))
  {
  }

  lemma SplitMaxSkipsSpace(c: char, r: string, k: nat)
    requires IsSpace(c)
    ensures SplitMax([c] + r, k) == SplitMax(r, k)
  {
    assert ([c] + r)[1..] == r;
    assert TrimStart([c] + r) == TrimStart(r);
  }

  lemma JoinSpacedStart(ts: seq<string>, tail: string)
    requires |ts| > 0 && IsToken(ts[0])
    ensures |JoinSpaced(ts) + tail| > 0 && !IsSpace((JoinSpaced(ts) + tail)[0])
  {
    assert (JoinSpaced(ts) + tail)[0] == JoinSpaced(ts)[0] == ts[0][0];
  }

  lemma SplitMaxWhole(s: string)
    requires |s| > 0 && !IsSpace(s[0])
    ensures SplitMax(s, 0) == [s]
  {
    assert TrimStart(s) == s;
  }

  /** `s.split(sep)` for a one-character separator: never empty, and no piece
      holds the separator. */
  function SplitOn(s: string, sep: char): (r: seq<string>)
    ensures |r| >= 1
    ensures forall i :: 0 <= i < |r| ==> sep !in r[i]
    decreases |s|
  {
    if s == [] then [[]]
    else
      var rest := SplitOn(s[1..], sep);
      if s[0] == sep then [[]] + rest else [[s[0]] + rest[0]] + rest[1..]
  }

  /** `sep.join(parts)`. */
  function JoinOn(parts: seq<string>, sep: char): string
    requires |parts| >= 1
  {
    if |parts| == 1 then parts[0] else parts[0] + [sep] + JoinOn(parts[1..], sep)
  }

  lemma {:induction false} JoinOnSplitOn(s: string, sep: char)
    ensures JoinOn(SplitOn(s, sep), sep) == s
    decreases |s|
  {
    if s != [] {
      var rest := SplitOn(s[1..], sep);
      JoinOnSplitOn(s[1..], sep);
      if s[0] == sep {
        assert ([[]] + rest)[1..] == rest;
      } else if |rest| > 1 {
        var parts := [[s[0]] + rest[0]] + rest[1..];
        assert parts[1..] == rest[1..];
        assert JoinOn(rest, sep) == rest[0] + [sep] + JoinOn(rest[1..], sep);
      }
    }
  }

  /** A separator-free prefix is glued onto the first piece. */
  lemma {:induction false} SplitOnPrefix(a: string, s: string, sep: char)
    requires sep !in a
    ensures SplitOn(a + s, sep) == [a + SplitOn(s, sep)[0]] + SplitOn(s, sep)[1..]
    decreases |a|
  {
    if a != [] {
      assert (a + s)[0] == a[0] && (a + s)[1..] == a[1..] + s;
      SplitOnPrefix(a[1..], s, sep);
      var pieces, rest := SplitOn(s, sep), SplitOn(a[1..] + s, sep);
      assert a[0] != sep;
      assert SplitOn(a + s, sep) == [[a[0]] + rest[0]] + rest[1..];
      assert rest[0] == a[1..] + pieces[0] && rest[1..] == pieces[1..];
      assert [a[0]] + (a[1..] + pieces[0]) == a + pieces[0];
    } else {
      assert a + s == s && a + SplitOn(s, sep)[0] == SplitOn(s, sep)[0];
    }
  }

  lemma {:induction false} SplitOnJoinOn(parts: seq<string>, sep: char)
    requires |parts| >= 1 && forall i :: 0 <= i < |parts| ==> sep !in parts[i]
    ensures SplitOn(JoinOn(parts, sep), sep) == parts
    decreases |parts|
  {
    if |parts| == 1 {
      SplitOnPrefix(parts[0], [], sep);
      assert parts[0] + [] == parts[0];
    } else {
      var rest := JoinOn(parts[1..], sep);
      SplitOnJoinOn(parts[1..], sep);
      assert JoinOn(parts, sep) == parts[0] + ([sep] + rest);
      SplitOnPrefix(parts[0], [sep] + rest, sep);
      assert ([sep] + rest)[1..] == rest;
      assert SplitOn([sep] + rest, sep) == [[]] + parts[1..];
      assert parts[0] + [] == parts[0];
    }
  }

  /** `(key + "=" + value).split("=")` when neither part holds an `=`. */
  lemma KeyValueSplit(key: string, value: string)
    requires '=' !in key && '=' !in value
    ensures SplitOn(key + "=" + value, '=') == [key, value]
  {
    SplitOnJoinOn([key, value], '=');
    assert JoinOn([key, value], '=') == key + "=" + value;
  }

  predicate IsDigit(c: char) {
    '0' <= c <= '9'
  }

  function DigitValue(c: char): nat
    requires IsDigit(c)
  {
    c as int - '0' as int
  }

  function DigitChar(d: nat): (c: char)
    requires d < 10
    ensures IsDigit(c) && DigitValue(c) == d
  {
    ('0' as int + d) as char
  }

  /** The text `int()` accepts after an optional sign: digits, with a single
      underscore allowed only between two digits. */
  predicate IsDigitText(s: string) {
    |s| > 0 && IsDigit(s[0]) && IsDigit(s[|s| - 1]) &&
    forall i :: 0 <= i < |s| ==>
      IsDigit(s[i]) || (s[i] == '_' && 0 < i < |s| - 1 && IsDigit(s[i - 1]) && IsDigit(s[i + 1]))
  }

  /** A digit text holds nothing but digits and underscores. */
  lemma DigitTextChars(s: string)
    requires IsDigitText(s)
    ensures forall i :: 0 <= i < |s| ==> IsDigit(s[i]) || s[i] == '_'
  {
    forall i | 0 <= i < |s| ensures IsDigit(s[i]) || s[i] == '_' {
      if 0 < i < |s| - 1 {
        var before, after := s[i - 1], s[i + 1];
      }
    }
  }

  /** Decimal value of a digit text, underscores ignored. */
  function DigitsValue(s: string): nat
    decreases |s|
  {
    if s == [] then 0
    else if IsDigit(s[|s| - 1]) then DigitsValue(s[..|s| - 1]) * 10 + DigitValue(s[|s| - 1])
    else DigitsValue(s[..|s| - 1])
  }

  /** `int(s)` for a string without whitespace: an optional sign, then a digit
      text; `None` where Python raises ValueError. Only a sign, digits and
      underscores are ever accepted, the last character is a digit, a
      negative value needs a leading `-`, and a plain digit string is read
      as a decimal number. */
  function ParseInt(s: string): (r: Option<int>)
    ensures r.Some? ==>
      |s| > 0 && IsDigit(s[|s| - 1]) &&
      forall i :: 0 <= i < |s| ==> IsDigit(s[i]) || s[i] == '_' || (i == 0 && (s[i] == '+' || s[i] == '-'))
    ensures r.Some? && r.value < 0 ==> s[0] == '-'
    ensures |s| > 0 && (forall i :: 0 <= i < |s| ==> IsDigit(s[i])) ==> r == Some(DigitsValue(s))
  {
    if |s| > 0 && (s[0] == '+' || s[0] == '-') then
      if IsDigitText(s[1..]) then
        assert forall i :: 1 <= i < |s| ==> IsDigit(s[i]) || s[i] == '_' by {
          DigitTextChars(s[1..]);
          forall i | 1 <= i < |s| ensures IsDigit(s[i]) || s[i] == '_' {
            assert s[1..][i - 1] == s[i];
          }
        }
        var magnitude: int := DigitsValue(s[1..]);
        Some(if s[0] == '-' then -magnitude else magnitude)
      else None
    else if IsDigitText(s) then
      DigitTextChars(s);
      Some(DigitsValue(s))
    else None
  }

  /** `str(n)` for a natural number. */
  function NatText(n: nat): (r: string)
    ensures IsDigitText(r) && forall i :: 0 <= i < |r| ==> IsDigit(r[i])
    ensures DigitsValue(r) == n
    decreases n
  {
    if n < 10 then [DigitChar(n)]
    else
      var p := NatText(n / 10);
      var r := p + [DigitChar(n % 10)];
      assert r[..|r| - 1] == p;
      r
  }

  /** `str(n)`. */
  function IntText(n: int): (r: string)
    ensures |r| > 0 && forall i :: 0 <= i < |r| ==> IsDigit(r[i]) || (i == 0 && r[i] == '-')
  {
    if n < 0 then "-" + NatText(-n) else NatText(n)
  }

  /** `int(str(n)) == n`. */
  lemma ParseIntText(n: int)
    ensures ParseInt(IntText(n)) == Some(n)
  {
    if n < 0 {
      assert IntText(n)[1..] == NatText(-n);
    }
  }

  predicate IsOctalDigit(c: char) {
    '0' <= c <= '7'
  }

  predicate IsOctalText(s: string) {
    forall i :: 0 <= i < |s| ==> IsOctalDigit(s[i])
  }

  /** An octal numeral as `oct()` writes it after its `0o`: octal digits, and
      no leading zero unless the numeral is `0` itself. */
  predicate IsCanonicalOctal(s: string) {
    |s| > 0 && IsOctalText(s) && (s[0] == '0' ==> |s| == 1)
  }

  function OctalValue(s: string): nat
    requires IsOctalText(s)
    decreases |s|
  {
    if s == [] then 0 else OctalValue(s[..|s| - 1]) * 8 + DigitValue(s[|s| - 1])
  }

  function OctalChar(d: nat): (c: char)
    requires d < 8
    ensures IsOctalDigit(c) && DigitValue(c) == d
  {
    ('0' as int + d) as char
  }

  /** `oct(n)[2:]`: the canonical octal numeral of `n`. */
  function Octal(n: nat): (r: string)
    ensures IsCanonicalOctal(r) && OctalValue(r) == n
    decreases n
  {
    if n < 8 then [OctalChar(n)]
    else
      var p := Octal(n / 8);
      var r := p + [OctalChar(n % 8)];
      assert r[..|r| - 1] == p;
      r
  }

  lemma {:induction false} OctalValuePositive(s: string)
    requires |s| > 0 && IsOctalText(s) && s[0] != '0'
    ensures OctalValue(s) >= 1
    decreases |s|
  {
    if |s| > 1 {
      OctalValuePositive(s[..|s| - 1]);
    }
  }

  /** Every canonical octal numeral is the one `oct()` writes for its value. */
  lemma {:induction false} OctalOfValue(s: string)
    requires IsCanonicalOctal(s)
    ensures Octal(OctalValue(s)) == s
    decreases |s|
  {
    if |s| > 1 {
      var p, c := s[..|s| - 1], s[|s| - 1];
      assert IsCanonicalOctal(p);
      OctalValuePositive(p);
      OctalOfValue(p);
      var q := OctalValue(p);
      EightDigit(q, DigitValue(c));
      assert OctalChar(DigitValue(c)) == c;
      assert s == p + [c];
    }
  }

  lemma EightDigit(q: nat, d: nat)
    requires d < 8
    ensures (q * 8 + d) / 8 == q && (q * 8 + d) % 8 == d
  {
  }

  /** `oct(n)[2:] == s` exactly when `s` is a canonical octal numeral for `n`. */
  lemma OctalTextIff(n: nat, s: string)
    ensures Octal(n) == s <==> IsCanonicalOctal(s) && OctalValue(s) == n
  {
    if IsCanonicalOctal(s) && OctalValue(s) == n {
      OctalOfValue(s);
    }
  }
}
