/**
 * The parts of Go's standard library that gdstorage.go calls for its
 * string handling: strings.Split, strings.ToLower, filepath.Ext and the
 * decimal formatting of fmt's %d verb. Index (on which Split is built) and
 * Join (the inverse of Split, used only to state that Split loses nothing)
 * are helpers the package does not call.
 */
module Text {
  import opened Results

  /** `sep` occurs in `s` at position `i`. */
  predicate OccursAt(s: string, sep: string, i: nat) {
    i + |sep| <= |s| && s[i..i + |sep|] == sep
  }

  predicate Occurs(s: string, sep: string) {
    exists i: nat :: i <= |s| && OccursAt(s, sep, i)
  }

  predicate EndsWith(s: string, suffix: string) {
    |suffix| <= |s| && s[|s| - |suffix|..] == suffix
  }

  /** The first position at or after `from` at which `sep` occurs in `s`. */
  function IndexFrom(s: string, sep: string, from: nat): (r: Option<nat>)
    ensures r.Some? ==> from <= r.value && OccursAt(s, sep, r.value)
    ensures r.Some? ==> forall j: nat :: from <= j < r.value ==> !OccursAt(s, sep, j)
    ensures r.None? ==> forall j: nat :: from <= j ==> !OccursAt(s, sep, j)
    decreases |s| - from
  {
    if |s| < from + |sep| then None
    else if s[from..from + |sep|] == sep then Some(from)
    else IndexFrom(s, sep, from + 1)
  }

  /** strings.Index: the first position at which `sep` occurs in `s`. */
  function Index(s: string, sep: string): (r: Option<nat>)
    ensures r.Some? ==> OccursAt(s, sep, r.value)
    ensures r.Some? ==> forall j: nat :: j < r.value ==> !OccursAt(s, sep, j)
    ensures r.None? <==> !Occurs(s, sep)
  {
    IndexFrom(s, sep, 0)
  }

  /** strings.Split for a non-empty separator: cut at each leftmost occurrence. */
  function Split(s: string, sep: string): (parts: seq<string>)
    requires |sep| > 0
    ensures |parts| >= 1
    decreases |s|
  {
    match Index(s, sep)
    case None => [s]
    case Some(i) => [s[..i]] + Split(s[i + |sep|..], sep)
  }

  /** strings.Join. */
  function Join(parts: seq<string>, sep: string): string {
    if |parts| == 0 then ""
    else if |parts| == 1 then parts[0]
    else parts[0] + sep + Join(parts[1..], sep)
  }

  /** Splitting loses nothing: joining the pieces gives the text back. */
  lemma {:induction false} JoinSplit(s: string, sep: string)
    requires |sep| > 0
    ensures Join(Split(s, sep), sep) == s
  {
    var k := Index(s, sep);
    if k.Some? {
      var i := k.value;
      var rest := s[i + |sep|..];
      var tail := Split(rest, sep);
      JoinSplit(rest, sep);
      assert Split(s, sep) == [s[..i]] + tail;
      assert Join([s[..i]] + tail, sep) == s[..i] + sep + Join(tail, sep) by {
        assert ([s[..i]] + tail)[1..] == tail;
      }
      assert s[i..i + |sep|] == sep;
      assert s == s[..i] + s[i..i + |sep|] + rest;
    }
  }

  /** The last element of strings.Split(s, sep). */
  function LastPiece(s: string, sep: string): string
    requires |sep| > 0
  {
    var parts := Split(s, sep);
    parts[|parts| - 1]
  }

  /**
   * The last piece is a suffix of the text in which the separator does not
   * occur, and it is either the whole text or directly preceded by the
   * separator.
   */
  lemma {:induction false} LastPieceShape(s: string, sep: string)
    requires |sep| > 0
    ensures LastPieceShaped(s, sep, LastPiece(s, sep))
  {
    var k := Index(s, sep);
    if k.Some? {
      LastPieceShape(s[k.value + |sep|..], sep);
      LastPieceShapeAfterCut(s, sep, k.value);
    } else {
      LastPieceWhole(s, sep);
    }
  }

  /** Without a separator the last piece is the whole text. */
  lemma LastPieceWhole(s: string, sep: string)
    requires |sep| > 0 && Index(s, sep).None?
    ensures LastPieceShaped(s, sep, LastPiece(s, sep))
  {
    assert Split(s, sep) == [s];
    assert s[|s| - |s|..] == s;
  }

  /** What LastPieceShape promises of a last piece `p` of `s`. */
  predicate LastPieceShaped(s: string, sep: string, p: string) {
    EndsWith(s, p) && !Occurs(p, sep) &&
    (|p| == |s| || (|p| + |sep| <= |s| && OccursAt(s, sep, |s| - |p| - |sep|)))
  }

  /** The shape of the last piece carries over from the text after the first cut. */
  lemma LastPieceShapeAfterCut(s: string, sep: string, i: nat)
    requires |sep| > 0 && Index(s, sep) == Some(i)
    requires LastPieceShaped(s[i + |sep|..], sep, LastPiece(s[i + |sep|..], sep))
    ensures LastPieceShaped(s, sep, LastPiece(s, sep))
  {
    var p := LastPiece(s[i + |sep|..], sep);
    LastPieceOfCut(s, sep, i);
    ShapeAfterCut(s, sep, i, p);
  }

  lemma LastPieceOfCut(s: string, sep: string, i: nat)
    requires |sep| > 0 && Index(s, sep) == Some(i)
    ensures LastPiece(s, sep) == LastPiece(s[i + |sep|..], sep)
  {
    var t := Split(s[i + |sep|..], sep);
    var parts := Split(s, sep);
    assert parts == [s[..i]] + t;
    assert |t| >= 1;
    assert parts[|parts| - 1] == t[|t| - 1];
  }

  lemma ShapeAfterCut(s: string, sep: string, i: nat, p: string)
    requires i + |sep| <= |s| && OccursAt(s, sep, i)
    requires LastPieceShaped(s[i + |sep|..], sep, p)
    ensures LastPieceShaped(s, sep, p)
  {
    var d := i + |sep|;
    var rest := s[d..];
    SliceOfDrop(s, d, |rest| - |p|, |rest|);
    if |p| != |rest| {
      SliceOfDrop(s, d, |rest| - |p| - |sep|, |rest| - |p|);
    }
  }

  lemma SliceOfDrop(s: string, d: nat, x: nat, y: nat)
    requires d <= |s| && x <= y <= |s| - d
    ensures s[d..][x..y] == s[d + x..d + y]
  {
    var u := s[d..][x..y];
    var v := s[d + x..d + y];
    forall k | 0 <= k < |u| ensures u[k] == v[k] {
      assert u[k] == s[d..][x + k];
    }
  }

  /** A one-character separator occurs exactly where its character does. */
  lemma OccursChar(s: string, c: char)
    ensures Occurs(s, [c]) <==> c in s
  {
    if c in s {
      var i :| 0 <= i < |s| && s[i] == c;
      assert OccursAt(s, [c], i);
    }
    if Occurs(s, [c]) {
      var i: nat :| i <= |s| && OccursAt(s, [c], i);
      assert s[i] == s[i..i + 1][0];
    }
  }

  /** No path separator in `path` at or after position `i`. */
  predicate InBase(path: string, i: nat)
    requires i <= |path|
  {
    '/' !in path[i..]
  }

  /** The last element of `path` (after its last '/') has no dot. */
  predicate NoDotInBase(path: string) {
    forall i :: 0 <= i < |path| && path[i] == '.' ==> !InBase(path, i)
  }

  /**
   * filepath.Ext for '/'-separated paths: the suffix of the last element of
   * the path that starts at its last dot, or "" when that element has none.
   */
  function Ext(path: string): (ext: string)
    ensures ext == "" <==> NoDotInBase(path)
    ensures ext != "" ==> EndsWith(path, ext) && ext[0] == '.' && '.' !in ext[1..] && '/' !in ext[1..]
    decreases |path|
  {
    if |path| == 0 then ""
    else
      var n := |path| - 1;
      var c := path[n];
      if c == '/' then
        assert forall i :: 0 <= i < n ==> path[n] in path[i..];
        ""
      else if c == '.' then
        assert path[n..] == ".";
        assert InBase(path, n);
        "."
      else
        var e := Ext(path[..n]);
        assert forall i :: 0 <= i < n ==> path[i..] == path[..n][i..] + [c];
        if e == "" then "" else
          assert path[|path| - |e| - 1..] == path[..n][n - |e|..] + [c];
          assert InBase(path[..n], n - |e|);
          assert InBase(path, n - |e|);
          e + [c]
  }

  /** An extension that is already dot- and slash-free is what Ext finds after the last dot. */
  lemma {:induction false} ExtAfterDot(front: string, e: string)
    requires '.' !in e && '/' !in e
    ensures Ext(front + "." + e) == "." + e
    decreases |e|
  {
    var path := front + "." + e;
    if e != [] {
      var n := |path| - 1;
      assert path[n] == e[|e| - 1];
      assert path[..n] == front + "." + e[..|e| - 1];
      ExtAfterDot(front, e[..|e| - 1]);
      assert "." + e == "." + e[..|e| - 1] + [e[|e| - 1]];
    }
  }

  /** strings.ToLower on the ASCII letters. */
  function LowerChar(c: char): char {
    if 'A' <= c <= 'Z' then (c as int - 'A' as int + 'a' as int) as char else c
  }

  function ToLower(s: string): (r: string)
    ensures |r| == |s| && forall i :: 0 <= i < |s| ==> r[i] == LowerChar(s[i])
  {
    seq(|s|, i requires 0 <= i < |s| => LowerChar(s[i]))
  }

  /** Equality up to the case of ASCII letters (strings.EqualFold on ASCII). */
  predicate SameIgnoringCase(a: string, b: string) {
    |a| == |b| && forall i :: 0 <= i < |a| ==> LowerChar(a[i]) == LowerChar(b[i])
  }

  /** Comparing the lower-cased text with a lower-case word is case-insensitive comparison. */
  lemma ToLowerEq(s: string, word: string)
    requires ToLower(word) == word
    ensures ToLower(s) == word <==> SameIgnoringCase(s, word)
  {
    if SameIgnoringCase(s, word) {
      assert forall i :: 0 <= i < |s| ==> ToLower(s)[i] == word[i] by {
        forall i | 0 <= i < |s| ensures ToLower(s)[i] == word[i] {
          assert ToLower(word)[i] == word[i];
        }
      }
    }
    if ToLower(s) == word {
      forall i | 0 <= i < |s| ensures LowerChar(s[i]) == LowerChar(word[i]) {
        assert ToLower(word)[i] == word[i];
        assert ToLower(s)[i] == word[i];
      }
    }
  }

  function DigitChar(d: nat): char
    requires d < 10
  {
    ('0' as int + d) as char
  }

  function DigitValue(c: char): nat {
    if '0' <= c <= '9' then c as int - '0' as int else 0
  }

  predicate IsDigit(c: char) {
    '0' <= c <= '9'
  }

  /** The decimal digits of a natural number, most significant first. */
  function Digits(n: nat): (s: string)
    ensures |s| >= 1 && forall i :: 0 <= i < |s| ==> IsDigit(s[i])
    decreases n
  {
    if n < 10 then [DigitChar(n)] else Digits(n / 10) + [DigitChar(n % 10)]
  }

  /** fmt's %d: an optional minus sign followed by the digits. */
  function Decimal(n: int): (s: string)
    ensures forall i :: 0 <= i < |s| ==> IsDigit(s[i]) || s[i] == '-'
  {
    if n < 0 then "-" + Digits(-n) else Digits(n)
  }

  function DigitsValue(s: string): nat {
    if |s| == 0 then 0 else DigitsValue(s[..|s| - 1]) * 10 + DigitValue(s[|s| - 1])
  }

  /** Reading the decimal text back (strconv.Atoi on well-formed text). */
  function ParseDecimal(s: string): int {
    if |s| > 0 && s[0] == '-' then -(DigitsValue(s[1..]) as int) else DigitsValue(s)
  }

  lemma {:induction false} DigitsRoundTrip(n: nat)
    ensures DigitsValue(Digits(n)) == n
    decreases n
  {
    if n >= 10 {
      DigitsRoundTrip(n / 10);
      var s := Digits(n);
      assert s[..|s| - 1] == Digits(n / 10);
    }
  }

  /** Formatting with %d loses nothing. */
  lemma DecimalRoundTrip(n: int)
    ensures ParseDecimal(Decimal(n)) == n
  {
    if n < 0 {
      DigitsRoundTrip(-n);
      assert Decimal(n)[1..] == Digits(-n);
    } else {
      DigitsRoundTrip(n);
    }
  }

  /** Text ending in `c` + b, with `c` absent from b, determines b and what precedes. */
  lemma CutAtLast(a: string, b: string, a': string, b': string, c: char)
    requires a + [c] + b == a' + [c] + b'
    requires c !in b && c !in b'
    ensures a == a' && b == b'
  {
    var s := a + [c] + b;
    assert forall k :: |s| - |b| <= k < |s| ==> s[k] == b[k - |s| + |b|];
    assert forall k :: |s| - |b'| <= k < |s| ==> s[k] == b'[k - |s| + |b'|];
    assert s[|s| - 1 - |b|] == c && s[|s| - 1 - |b'|] == c;
    assert |b| == |b'|;
    assert b == s[|s| - |b|..];
    assert a == s[..|a|];
  }

  /** Text starting with a + `c`, with `c` absent from a, determines a and what follows. */
  lemma CutAtFirst(a: string, b: string, a': string, b': string, c: char)
    requires a + [c] + b == a' + [c] + b'
    requires c !in a && c !in a'
    ensures a == a' && b == b'
  {
    var s := a + [c] + b;
    assert forall k :: 0 <= k < |a| ==> s[k] == a[k];
    assert forall k :: 0 <= k < |a'| ==> s[k] == a'[k];
    assert s[|a|] == c && s[|a'|] == c;
    assert |a| == |a'|;
    assert a == s[..|a|];
    assert b == s[|a| + 1..];
  }
}
