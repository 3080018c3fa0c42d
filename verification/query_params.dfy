/** Parsing of the `tags` / `ingredients` / `assigned_only` query parameters:
    Python's `str.split(',')` followed by `int()` on every piece. */
module QueryParams {
  import opened Wrappers
  import opened Text

  /** Python's `s.split(sep)`: never empty, no piece holds `sep`, and
      re-joining the pieces with `sep` gives back `s`. */
  function Split(s: string, sep: char): (pieces: seq<string>)
    ensures |pieces| >= 1
    ensures forall i :: 0 <= i < |pieces| ==> sep !in pieces[i]
    ensures JoinWith(pieces, sep) == s
  {
    if |s| == 0 then [""]
    else
      var rest := Split(s[1..], sep);
      if s[0] == sep then
        assert ([""] + rest)[1..] == rest;
        [""] + rest
      else
        var first := [s[0]] + rest[0];
        assert ([first] + rest[1..])[1..] == rest[1..];
        assert |rest| > 1 ==> JoinWith(rest, sep) == rest[0] + [sep] + JoinWith(rest[1..], sep);
        [first] + rest[1..]
  }

  /** Python's `sep.join(pieces)`. */
  function JoinWith(pieces: seq<string>, sep: char): string {
    if |pieces| == 0 then ""
    else if |pieces| == 1 then pieces[0]
    else pieces[0] + [sep] + JoinWith(pieces[1..], sep)
  }

  /** The number of occurrences of `c` in `s`. */
  function Count(s: string, c: char): nat {
    if |s| == 0 then 0 else (if s[0] == c then 1 else 0) + Count(s[1..], c)
  }

  /** A string without the separator splits into itself. */
  lemma {:induction false} SplitNoSep(a: string, sep: char)
    requires sep !in a
    ensures Split(a, sep) == [a]
  {
    if |a| > 0 {
      SplitNoSep(a[1..], sep);
      assert [a[0]] + a[1..] == a;
    }
  }

  /** Splitting peels off the text before the first separator. */
  lemma {:induction false} SplitFirst(a: string, t: string, sep: char)
    requires sep !in a
    ensures Split(a + [sep] + t, sep) == [a] + Split(t, sep)
  {
    var s := a + [sep] + t;
    if |a| == 0 {
      assert s[1..] == t;
    } else {
      assert s[1..] == a[1..] + [sep] + t;
      SplitFirst(a[1..], t, sep);
      assert [a[0]] + a[1..] == a;
    }
  }

  /** Splitting undoes joining, for pieces free of the separator. */
  lemma {:induction false} SplitJoin(pieces: seq<string>, sep: char)
    requires |pieces| >= 1
    requires forall i :: 0 <= i < |pieces| ==> sep !in pieces[i]
    ensures Split(JoinWith(pieces, sep), sep) == pieces
  {
    if |pieces| == 1 {
      SplitNoSep(pieces[0], sep);
    } else {
      SplitJoin(pieces[1..], sep);
      SplitFirst(pieces[0], JoinWith(pieces[1..], sep), sep);
      assert [pieces[0]] + pieces[1..] == pieces;
    }
  }

  /** There is one more piece than there are separators. */
  lemma {:induction false} SplitCount(s: string, sep: char)
    ensures |Split(s, sep)| == Count(s, sep) + 1
  {
    if |s| > 0 {
      SplitCount(s[1..], sep);
    }
  }

  predicate IsDigit(c: char) {
    '0' <= c <= '9'
  }

  function DigitValue(c: char): nat
    requires IsDigit(c)
  {
    c as int - '0' as int
  }

  function DigitChar(d: nat): (c: char)
    requires d < 10
    ensures IsDigit(c) && DigitValue(c) == d
  {
    ('0' as int + d) as char
  }

  /** The body `int()` accepts after an optional sign: decimal digits, where a
      single `_` may separate two digits. */
  predicate IsDigitRun(t: string) {
    && |t| > 0 && IsDigit(t[0]) && IsDigit(t[|t| - 1])
    && (forall i :: 0 <= i < |t| ==> IsDigit(t[i]) || t[i] == '_')
    && (forall i :: 0 <= i < |t| - 1 ==> IsDigit(t[i]) || IsDigit(t[i + 1]))
  }

  /** The decimal value of the digits of `t`, underscores skipped. */
  function ValueOf(t: string): nat
    requires forall i :: 0 <= i < |t| ==> IsDigit(t[i]) || t[i] == '_'
  {
    if |t| == 0 then 0
    else if t[|t| - 1] == '_' then ValueOf(t[..|t| - 1])
    else ValueOf(t[..|t| - 1]) * 10 + DigitValue(t[|t| - 1])
  }

  /** `t` is exactly what `int()` reads as `n`: an optional `+` or `-`
      followed by a digit run. */
  predicate SignedDigits(t: string, n: int) {
    || (IsDigitRun(t) && n == ValueOf(t))
    || (|t| > 0 && t[0] == '+' && IsDigitRun(t[1..]) && n == ValueOf(t[1..]))
    || (|t| > 0 && t[0] == '-' && IsDigitRun(t[1..]) && n == -(ValueOf(t[1..]) as int))
  }

  /** `s` is `r` at offset `i` with only `int()` whitespace before and
      after it. */
  predicate IntPaddedAt(s: string, r: string, i: int) {
    && 0 <= i && i + |r| <= |s| && r == s[i..i + |r|]
    && (forall k :: 0 <= k < i ==> IsIntSpace(s[k]))
    && (forall k :: i + |r| <= k < |s| ==> IsIntSpace(s[k]))
  }

  /** `int(s)` gives `n`: some infix of `s` reads as `n`, and everything
      around it is whitespace that `int()` skips. */
  ghost predicate ReadsAs(s: string, n: int) {
    exists i, j :: 0 <= i <= j <= |s| && IntPaddedAt(s, s[i..j], i) && SignedDigits(s[i..j], n)
  }

  /** Like `ReadsAs`, but with the wider padding `str.strip()` removes. */
  ghost predicate ReadsAfterStrip(s: string, n: int) {
    exists i, j :: 0 <= i <= j <= |s| && PaddedAt(s, s[i..j], i) && SignedDigits(s[i..j], n)
  }

  predicate HasInfoSeparator(s: string) {
    exists k :: 0 <= k < |s| && IsInfoSeparator(s[k])
  }

  /** Python's `int(s)` on a `str`: surrounding whitespace is ignored, an
      optional sign, then a digit run; anything else raises `ValueError`,
      which is `None` here. An information separator is never skipped, and
      no number contains one. */
  function ParseInt(s: string): (r: Option<int>)
    ensures forall n :: r == Some(n) <==> ReadsAs(s, n)
    ensures (forall k :: 0 <= k < |s| ==> IsSpace(s[k])) ==> r == None
  {
    IntPadding(s);
    if HasInfoSeparator(s) then None
    else
      TrimReads(s);
      ParseSigned(Trim(s))
  }

  /** Reading with `int()` padding is reading with `str.strip()` padding
      in a string free of information separators. */
  lemma IntPadding(s: string)
    ensures forall n :: ReadsAs(s, n) <==> !HasInfoSeparator(s) && ReadsAfterStrip(s, n)
  {
    forall n
      ensures ReadsAs(s, n) <==> !HasInfoSeparator(s) && ReadsAfterStrip(s, n)
    {
      if ReadsAs(s, n) {
        var i, j :| 0 <= i <= j <= |s| && IntPaddedAt(s, s[i..j], i) && SignedDigits(s[i..j], n);
        assert PaddedAt(s, s[i..j], i);
        SignedDigitsPlain(s[i..j], n);
        forall k | 0 <= k < |s|
          ensures !IsInfoSeparator(s[k])
        {
          if i <= k < j {
            assert s[k] == s[i..j][k - i];
          }
        }
      }
      if !HasInfoSeparator(s) && ReadsAfterStrip(s, n) {
        var i, j :| 0 <= i <= j <= |s| && PaddedAt(s, s[i..j], i) && SignedDigits(s[i..j], n);
        assert IntPaddedAt(s, s[i..j], i);
      }
    }
  }

  /** What `int()` reads holds no information separator. */
  lemma SignedDigitsPlain(t: string, n: int)
    requires SignedDigits(t, n)
    ensures forall k :: 0 <= k < |t| ==> !IsInfoSeparator(t[k])
  {
    if |t| > 0 && (t[0] == '+' || t[0] == '-') && IsDigitRun(t[1..]) {
      forall k | 1 <= k < |t|
        ensures !IsInfoSeparator(t[k])
      {
        assert t[k] == t[1..][k - 1];
      }
    }
  }

  /** `str.strip()` drops U+001C but `int()` does not skip it. */
  lemma InfoSeparatorNotSkipped()
    ensures Trim("\U{001C}1") == "1"
    ensures ParseInt("\U{001C}1") == None
  {
    assert HasInfoSeparator("\U{001C}1") by {
      assert IsInfoSeparator("\U{001C}1"[0]);
    }
  }

  /** `int()` on text without surrounding whitespace. */
  function ParseSigned(t: string): (r: Option<int>)
    ensures forall n :: r == Some(n) <==> SignedDigits(t, n)
  {
    if |t| > 0 && (t[0] == '+' || t[0] == '-') then
      var body := t[1..];
      if IsDigitRun(body) then
        Some(if t[0] == '-' then -(ValueOf(body) as int) else ValueOf(body))
      else None
    else if IsDigitRun(t) then Some(ValueOf(t))
    else None
  }

  /** What `s` reads as is what its strip reads as. */
  lemma TrimReads(s: string)
    ensures forall n :: ReadsAfterStrip(s, n) <==> SignedDigits(Trim(s), n)
    ensures (forall k :: 0 <= k < |s| ==> IsSpace(s[k])) ==> forall n :: !SignedDigits(Trim(s), n)
  {
    forall n
      ensures ReadsAfterStrip(s, n) <==> SignedDigits(Trim(s), n)
    {
      if ReadsAfterStrip(s, n) {
        ReadsAsStrip(s, n);
      }
      if SignedDigits(Trim(s), n) {
        StripReadsAs(s, n);
      }
    }
  }

  lemma StripReadsAs(s: string, n: int)
    requires SignedDigits(Trim(s), n)
    ensures ReadsAfterStrip(s, n)
  {
    var t := Trim(s);
    var i :| PaddedAt(s, t, i);
    SliceAt(s, t, i);
  }

  lemma SliceAt(s: string, t: string, i: int)
    requires PaddedAt(s, t, i)
    ensures 0 <= i <= i + |t| <= |s| && s[i..i + |t|] == t
  {
  }

  lemma ReadsAsStrip(s: string, n: int)
    requires ReadsAfterStrip(s, n)
    ensures SignedDigits(Trim(s), n)
  {
    var t := Trim(s);
    var i2 :| PaddedAt(s, t, i2);
    ReadsAsPadded(s, n, t, i2);
  }

  /** `t` is any strip of `s` (the properties `Trim` guarantees). */
  lemma ReadsAsPadded(s: string, n: int, t: string, i2: int)
    requires ReadsAfterStrip(s, n)
    requires PaddedAt(s, t, i2)
    requires t == "" <==> forall k :: 0 <= k < |s| ==> IsSpace(s[k])
    requires |t| > 0 ==> !IsSpace(t[0]) && !IsSpace(t[|t| - 1])
    ensures SignedDigits(t, n)
  {
    var i, j :| 0 <= i <= j <= |s| && PaddedAt(s, s[i..j], i) && SignedDigits(s[i..j], n);
    var u := s[i..j];
    SignedDigitsUnpadded(u, n);
    StripUnique(s, u, i, t, i2);
  }

  /** What `int()` reads has no whitespace at either end. */
  lemma SignedDigitsUnpadded(u: string, n: int)
    requires SignedDigits(u, n)
    ensures |u| > 0 && !IsSpace(u[0]) && !IsSpace(u[|u| - 1])
  {
  }

  /** An unpadded non-empty infix surrounded by whitespace is the strip
      `t` of `s`. */
  lemma StripUnique(s: string, u: string, i: int, t: string, i2: int)
    requires PaddedAt(s, u, i) && |u| > 0 && !IsSpace(u[0]) && !IsSpace(u[|u| - 1])
    requires PaddedAt(s, t, i2)
    requires t == "" <==> forall k :: 0 <= k < |s| ==> IsSpace(s[k])
    requires |t| > 0 ==> !IsSpace(t[0]) && !IsSpace(t[|t| - 1])
    ensures u == t
  {
    assert s[i] == u[0];
    assert t != "";
    PaddedUnique(s, u, i, t, i2);
  }

  /** A non-empty infix with no whitespace at either end and only
      whitespace around it is unique: it is the strip. */
  lemma PaddedUnique(s: string, u: string, i: int, w: string, i2: int)
    requires PaddedAt(s, u, i) && PaddedAt(s, w, i2)
    requires |u| > 0 && !IsSpace(u[0]) && !IsSpace(u[|u| - 1])
    requires |w| > 0 && !IsSpace(w[0]) && !IsSpace(w[|w| - 1])
    ensures u == w
  {
    assert s[i] == u[0] && s[i2] == w[0];
    assert s[i + |u| - 1] == u[|u| - 1] && s[i2 + |w| - 1] == w[|w| - 1];
  }

  /** Decimal digits of `n`, without leading zeros: what `str(n)` gives. */
  function FormatNat(n: nat): (r: string)
    ensures |r| > 0
    ensures forall i :: 0 <= i < |r| ==> IsDigit(r[i])
    ensures |r| > 1 ==> r[0] != '0'
  {
    if n < 10 then [DigitChar(n)]
    else FormatNat(n / 10) + [DigitChar(n % 10)]
  }

  /** `str(n)` for any integer. */
  function FormatInt(n: int): (r: string)
    ensures |r| > 0 && !IsSpace(r[0]) && !IsSpace(r[|r| - 1])
    ensures ',' !in r
  {
    if n < 0 then "-" + FormatNat(-n) else FormatNat(n)
  }

  lemma {:induction false} ValueOfFormat(n: nat)
    ensures ValueOf(FormatNat(n)) == n
  {
    if n >= 10 {
      var r := FormatNat(n);
      ValueOfFormat(n / 10);
      assert r[..|r| - 1] == FormatNat(n / 10);
    }
  }

  /** `int(str(n)) == n`. */
  lemma ParseFormat(n: int)
    ensures ParseInt(FormatInt(n)) == Some(n)
  {
    var r := FormatInt(n);
    TrimUnpadded(r);
    var m: nat := if n < 0 then -n else n;
    var digits := FormatNat(m);
    ValueOfFormat(m);
    assert IsDigitRun(digits);
    if n < 0 {
      assert r[1..] == digits;
    } else {
      assert r == digits;
    }
    assert SignedDigits(r, n);
  }

  /** `int()` applied to every piece; `None` when any piece is not an integer. */
  function ParseAll(pieces: seq<string>): (r: Option<seq<int>>)
    ensures r.Some? ==> |r.value| == |pieces|
    ensures r.Some? ==> forall i :: 0 <= i < |pieces| ==> ParseInt(pieces[i]) == Some(r.value[i])
    ensures r.None? <==> exists i :: 0 <= i < |pieces| && ParseInt(pieces[i]).None?
  {
    if |pieces| == 0 then Some([])
    else
      match ParseInt(pieces[0])
      case None => None
      case Some(n) =>
        var rest := ParseAll(pieces[1..]);
        ParseRest(ParseInt, pieces, n, rest);
        if rest.None? then None else Some([n] + rest.value)
  }

  /** How the first piece and the rest combine in `ParseAll`, for any
      per-piece parser `parse`. */
  lemma ParseRest(parse: string -> Option<int>, pieces: seq<string>, n: int, rest: Option<seq<int>>)
    requires |pieces| > 0 && parse(pieces[0]) == Some(n)
    requires rest.Some? ==> |rest.value| == |pieces| - 1
    requires rest.Some? ==> forall i :: 0 <= i < |pieces| - 1 ==> parse(pieces[1..][i]) == Some(rest.value[i])
    requires rest.None? <==> exists i :: 0 <= i < |pieces| - 1 && parse(pieces[1..][i]).None?
    ensures rest.Some? ==> forall i :: 0 <= i < |pieces| ==> parse(pieces[i]) == Some(([n] + rest.value)[i])
    ensures rest.None? <==> exists i :: 0 <= i < |pieces| && parse(pieces[i]).None?
  {
    if rest.None? {
      var i :| 0 <= i < |pieces| - 1 && parse(pieces[1..][i]).None?;
      assert pieces[1..][i] == pieces[i + 1];
    } else {
      forall i | 0 <= i < |pieces|
        ensures parse(pieces[i]) == Some(([n] + rest.value)[i])
      {
        if i > 0 {
          assert pieces[1..][i - 1] == pieces[i];
        }
      }
    }
  }

  /** `_params_to_ints`: `[int(str_id) for str_id in qs.split(',')]`. One
      integer per comma-separated piece; `None` (the `ValueError`) when some
      piece, possibly an empty one, is not an integer. */
  function ParamsToInts(qs: string): (r: Option<seq<int>>)
    ensures r.Some? ==> |r.value| == Count(qs, ',') + 1
    ensures r.Some? ==> (|r.value| == |Split(qs, ',')| &&
              forall i :: 0 <= i < |r.value| ==> ParseInt(Split(qs, ',')[i]) == Some(r.value[i]))
    ensures r.None? <==> exists i :: 0 <= i < |Split(qs, ',')| && ParseInt(Split(qs, ',')[i]).None?
    ensures qs == "" ==> r.None?
  {
    SplitCount(qs, ',');
    assert qs == "" ==> ParseInt(Split(qs, ',')[0]).None?;
    ParseAll(Split(qs, ','))
  }

  /** The query string a client builds from a list of ids: `','.join(map(str, xs))`. */
  function JoinInts(xs: seq<int>): string {
    JoinWith(FormatAll(xs), ',')
  }

  /** `str` applied to every element. */
  function FormatAll(xs: seq<int>): (r: seq<string>)
    ensures |r| == |xs|
    ensures forall i :: 0 <= i < |xs| ==> r[i] == FormatInt(xs[i])
  {
    if |xs| == 0 then [] else [FormatInt(xs[0])] + FormatAll(xs[1..])
  }

  /** Parsing the comma-joined decimal form of a non-empty list of integers
      gives the list back. */
  lemma JoinParse(xs: seq<int>)
    requires |xs| >= 1
    ensures ParamsToInts(JoinInts(xs)) == Some(xs)
  {
    var pieces := FormatAll(xs);
    SplitJoin(pieces, ',');
    forall i | 0 <= i < |xs|
      ensures ParseInt(pieces[i]) == Some(xs[i])
    {
      ParseFormat(xs[i]);
    }
    var r := ParseAll(pieces);
    assert r.Some?;
    assert r.value == xs;
  }

  /** An empty piece is not an integer: `"1,,2"` is rejected. */
  lemma EmptyPieceRejected()
    ensures ParamsToInts("1,,2") == None
  {
    SplitFirst("1", ",2", ',');
    SplitFirst("", "2", ',');
    assert "1,,2" == "1" + [','] + ",2";
    assert ",2" == "" + [','] + "2";
    assert Split("1,,2", ',')[1] == "";
  }
}
