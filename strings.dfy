/** The string primitives that the browser client (JavaScript) and the server (Python)
    lean on, stated over `seq<char>`: trimming, lower-casing, decimal formatting,
    `String.prototype.split`, `String.prototype.substring` and Python's `str.replace`. */
module Strings {

  datatype Option<T> = None | Some(value: T)

  predicate IsPrefix(p: string, s: string)
  {
    |p| <= |s| && s[..|p|] == p
  }

  /** `w` is a prefix of a text that begins with `c` exactly when it is empty or begins
      with `c` and continues with a prefix of the rest. */
  lemma PrefixCons(w: string, c: char, y: string)
    requires w != []
    ensures IsPrefix(w, [c] + y) <==> w[0] == c && IsPrefix(w[1..], y)
  {
    var u := [c] + y;
    if |w| <= |u| {
      assert u[..|w|] == [c] + y[..|w| - 1];
      assert w == [w[0]] + w[1..];
    }
  }

  lemma PrefixTrans(a: string, b: string, c: string)
    ensures IsPrefix(a, b) && IsPrefix(b, c) ==> IsPrefix(a, c)
  {
    if |a| <= |b| <= |c| {
      assert c[..|a|] == c[..|b|][..|a|];
    }
  }

  lemma PrefixSplit(p: string, s: string)
    requires IsPrefix(p, s)
    ensures s == p + s[|p|..]
  {
    assert s == s[..|p|] + s[|p|..];
  }

  /** Where `p` is a prefix of `s`, they agree on every position and slice of `p`. */
  lemma PrefixSlice(p: string, s: string, i: nat, j: nat)
    requires IsPrefix(p, s) && i <= j <= |p|
    ensures s[i..j] == p[i..j]
    ensures i < j ==> s[i] == p[i]
  {
    forall k | 0 <= k < j - i ensures s[i..j][k] == p[i..j][k] {
      assert s[i + k] == s[..|p|][i + k];
    }
  }

  lemma DropDrop<T>(s: seq<T>, a: nat, b: nat)
    requires a + b <= |s|
    ensures s[a..][b..] == s[a + b..]
  {
  }

  lemma DropTake<T>(s: seq<T>, a: nat, b: nat)
    requires a + b <= |s|
    ensures s[a..][..b] == s[a..a + b]
  {
  }

  lemma AppendAssoc<T>(a: seq<T>, b: seq<T>, c: seq<T>)
    ensures a + (b + c) == (a + b) + c
  {
  }

  lemma ConsSplit<T>(s: seq<T>)
    requires s != []
    ensures s == [s[0]] + s[1..]
  {
  }

  /** `w` occurs nowhere in `s`. */
  predicate Absent(w: string, s: string)
  {
    forall i :: 0 <= i <= |s| ==> !StartsAt(w, s, i)
  }

  // ---------------------------------------------------------------------------
  // White space and trimming
  // ---------------------------------------------------------------------------

  /** Whose notion of white space a trim uses. */
  datatype Flavor = JavaScript | Python

  /** JavaScript's `trim` removes the WhiteSpace and LineTerminator code points
      (ECMAScript, sections 12.2 and 12.3); Python's `strip()` removes the characters
      for which `str.isspace()` holds. The two sets share everything below except
      U+FEFF (JavaScript only) and U+001C..U+001F, U+0085 (Python only). */
  predicate IsSpace(f: Flavor, c: char)
  {
    var k := c as int;
    (9 <= k <= 13) || k == 0x20 || k == 0xA0 || k == 0x1680 || (0x2000 <= k <= 0x200A)
    || k == 0x2028 || k == 0x2029 || k == 0x202F || k == 0x205F || k == 0x3000
    || (f == JavaScript && k == 0xFEFF)
    || (f == Python && ((0x1C <= k <= 0x1F) || k == 0x85))
  }

  /** Drops the leading white space: what is left is a suffix of `s`. */
  function TrimStart(f: Flavor, s: string): (r: string)
    ensures |r| <= |s| && r == s[|s| - |r|..]
  {
    if s != [] && IsSpace(f, s[0]) then TrimStart(f, s[1..]) else s
  }

  /** Drops the trailing white space: what is left is a prefix of `s`. */
  function TrimEnd(f: Flavor, s: string): (r: string)
    ensures |r| <= |s| && r == s[..|r|]
  {
    if s != [] && IsSpace(f, s[|s| - 1]) then TrimEnd(f, s[..|s| - 1]) else s
  }

  /** Everything `TrimStart` drops is white space, and what it keeps does not start with
      white space. */
  lemma {:induction false} TrimStartDrops(f: Flavor, s: string)
    ensures forall k :: 0 <= k < |s| - |TrimStart(f, s)| ==> IsSpace(f, s[k])
    ensures TrimStart(f, s) != [] ==> !IsSpace(f, TrimStart(f, s)[0])
  {
    if s != [] && IsSpace(f, s[0]) {
      TrimStartDrops(f, s[1..]);
      forall k | 0 <= k < |s| - |TrimStart(f, s)| ensures IsSpace(f, s[k]) {
        if k > 0 {
          assert s[k] == s[1..][k - 1];
        }
      }
    }
  }

  /** Everything `TrimEnd` drops is white space, and what it keeps does not end with
      white space. */
  lemma {:induction false} TrimEndDrops(f: Flavor, s: string)
    ensures forall k :: |TrimEnd(f, s)| <= k < |s| ==> IsSpace(f, s[k])
    ensures TrimEnd(f, s) != [] ==> !IsSpace(f, TrimEnd(f, s)[|TrimEnd(f, s)| - 1])
  {
    if s != [] && IsSpace(f, s[|s| - 1]) {
      var p := s[..|s| - 1];
      TrimEndDrops(f, p);
      forall k | |TrimEnd(f, s)| <= k < |s| ensures IsSpace(f, s[k]) {
        if k < |s| - 1 {
          assert s[k] == p[k];
        }
      }
    }
  }

  /** `s.trim()` in JavaScript, `s.strip()` in Python. */
  function Trim(f: Flavor, s: string): string
  {
    TrimEnd(f, TrimStart(f, s))
  }

  /** The trimmed text is empty exactly when the text is all white space, and otherwise
      starts and ends with a non-space character. */
  lemma TrimShape(f: Flavor, s: string)
    ensures |Trim(f, s)| <= |s|
    ensures Trim(f, s) == [] <==> forall i :: 0 <= i < |s| ==> IsSpace(f, s[i])
    ensures Trim(f, s) != [] ==> !IsSpace(f, Trim(f, s)[0]) && !IsSpace(f, Trim(f, s)[|Trim(f, s)| - 1])
  {
    TrimEmptyWhenAllSpace(f, s);
    TrimEnds(f, s);
  }

  /** The trimmed text is empty exactly when every character is white space. */
  lemma TrimEmptyWhenAllSpace(f: Flavor, s: string)
    ensures Trim(f, s) == [] <==> forall i :: 0 <= i < |s| ==> IsSpace(f, s[i])
  {
    var u := TrimStart(f, s);
    TrimStartDrops(f, s);
    TrimEndDrops(f, u);
  }

  /** A non-empty trimmed text starts and ends with a non-space character. */
  lemma TrimEnds(f: Flavor, s: string)
    ensures Trim(f, s) != [] ==> !IsSpace(f, Trim(f, s)[0]) && !IsSpace(f, Trim(f, s)[|Trim(f, s)| - 1])
  {
    var u := TrimStart(f, s);
    var r := TrimEnd(f, u);
    TrimStartDrops(f, s);
    TrimEndDrops(f, u);
    if r != [] {
      assert r[0] == u[0];
    }
  }

  /** What `Trim` removes: the result is the slice of `s` between a run of white space at
      the start and a run of white space at the end. */
  lemma TrimIsSlice(f: Flavor, s: string)
    ensures var r, i := Trim(f, s), |s| - |TrimStart(f, s)|;
      && i + |r| <= |s| && r == s[i..i + |r|]
      && (forall k :: 0 <= k < i ==> IsSpace(f, s[k]))
      && (forall k :: i + |r| <= k < |s| ==> IsSpace(f, s[k]))
  {
    var u := TrimStart(f, s);
    TrimStartDrops(f, s);
    TrimEndOfSuffix(f, s, |s| - |u|, u);
  }

  /** Trimming the end of a suffix `u == s[i..]` keeps a slice of `s` followed by white
      space. */
  lemma TrimEndOfSuffix(f: Flavor, s: string, i: nat, u: string)
    requires i <= |s| && u == s[i..]
    ensures var r := TrimEnd(f, u);
      && i + |r| <= |s| && r == s[i..i + |r|]
      && forall k :: i + |r| <= k < |s| ==> IsSpace(f, s[k])
  {
    var r := TrimEnd(f, u);
    TrimEndDrops(f, u);
    DropTake(s, i, |r|);
    forall k | i + |r| <= k < |s| ensures IsSpace(f, s[k]) {
      assert s[k] == u[k - i];
    }
  }

  // ---------------------------------------------------------------------------
  // Lower-casing
  // ---------------------------------------------------------------------------

  function LowerChar(c: char): char
  {
    if 'A' <= c <= 'Z' then (c as int + 32) as char else c
  }

  /** Python's `str.lower()`, on the ASCII letters. */
  function Lower(s: string): (r: string)
    ensures |r| == |s|
  {
    seq(|s|, i requires 0 <= i < |s| => LowerChar(s[i]))
  }

  // ---------------------------------------------------------------------------
  // Decimal formatting: `${n}` in JavaScript, f"{n}" in Python
  // ---------------------------------------------------------------------------

  predicate IsDigit(c: char)
  {
    '0' <= c <= '9'
  }

  function DigitChar(d: nat): (c: char)
    requires d < 10
    ensures IsDigit(c)
  {
    (48 + d) as char
  }

  /** The decimal numeral of `n`: one digit exactly when `n < 10`, digits only. */
  function NatToString(n: nat): (r: string)
    ensures 1 <= |r|
    ensures |r| == 1 <==> n < 10
    ensures forall i :: 0 <= i < |r| ==> IsDigit(r[i])
  {
    if n < 10 then [DigitChar(n)] else NatToString(n / 10) + [DigitChar(n % 10)]
  }

  /** Distinct numbers have distinct numerals. */
  lemma {:induction false} NatToStringInjective(a: nat, b: nat)
    requires NatToString(a) == NatToString(b)
    ensures a == b
  {
    var sa, sb := NatToString(a), NatToString(b);
    if a < 10 {
      assert (sa[0] as int) == 48 + a && (sb[0] as int) == 48 + b;
    } else {
      assert sa[|sa| - 1] == DigitChar(a % 10) && sb[|sb| - 1] == DigitChar(b % 10);
      assert (DigitChar(a % 10) as int) == 48 + a % 10;
      assert (DigitChar(b % 10) as int) == 48 + b % 10;
      assert sa[..|sa| - 1] == NatToString(a / 10);
      assert sb[..|sb| - 1] == NatToString(b / 10);
      NatToStringInjective(a / 10, b / 10);
    }
  }

  // ---------------------------------------------------------------------------
  // JavaScript `String.prototype.substring` and `String.prototype.split`
  // ---------------------------------------------------------------------------

  function Min(a: int, b: int): int
  {
    if a <= b then a else b
  }

  /** `s.substring(start, end)`: both bounds are clamped to the length of `s`, and a
      reversed pair is swapped. */
  function Substring(s: string, start: nat, end: nat): (r: string)
    ensures |r| <= |s|
  {
    var a, b := Min(start, |s|), Min(end, |s|);
    if a <= b then s[a..b] else s[b..a]
  }

  /** `s.split(sep)` for a non-empty separator: the pieces between the leftmost
      non-overlapping occurrences of `sep`, scanning from the left. */
  function Split(s: string, sep: string): (r: seq<string>)
    requires sep != []
    ensures 1 <= |r|
    ensures IsPrefix(r[0], s)
    decreases |s|
  {
    if IsPrefix(sep, s) then [[]] + Split(s[|sep|..], sep)
    else if s == [] then [[]]
    else
      var rest := Split(s[1..], sep);
      [[s[0]] + rest[0]] + rest[1..]
  }

  /** The inverse of `Split`: the pieces glued back together with the separator. */
  function Join(pieces: seq<string>, sep: string): string
  {
    if |pieces| == 0 then []
    else if |pieces| == 1 then pieces[0]
    else pieces[0] + sep + Join(pieces[1..], sep)
  }

  /** Splitting loses nothing: joining the pieces with the separator gives `s` back. */
  lemma {:induction false} SplitJoin(s: string, sep: string)
    requires sep != []
    ensures Join(Split(s, sep), sep) == s
    decreases |s|
  {
    if IsPrefix(sep, s) {
      var rest := Split(s[|sep|..], sep);
      SplitJoin(s[|sep|..], sep);
      JoinCons([], rest, sep);
      PrefixSplit(sep, s);
      assert [] + sep == sep;
    } else if s != [] {
      var rest := Split(s[1..], sep);
      SplitJoin(s[1..], sep);
      JoinConsHead(s[0], rest, sep);
      ConsSplit(s);
    }
  }

  lemma JoinCons(a: string, pieces: seq<string>, sep: string)
    requires pieces != []
    ensures Join([a] + pieces, sep) == a + sep + Join(pieces, sep)
  {
    assert ([a] + pieces)[1..] == pieces;
  }

  /** A character put in front of the first piece goes in front of the joined text. */
  lemma JoinConsHead(c: char, pieces: seq<string>, sep: string)
    requires pieces != []
    ensures Join([[c] + pieces[0]] + pieces[1..], sep) == [c] + Join(pieces, sep)
  {
    var first := [c] + pieces[0];
    if |pieces| == 1 {
      assert [first] + pieces[1..] == [first];
    } else {
      JoinCons(first, pieces[1..], sep);
      assert first + sep + Join(pieces[1..], sep) == [c] + (pieces[0] + sep + Join(pieces[1..], sep));
    }
  }

  /** No piece of a split contains the separator. */
  lemma {:induction false} SplitPiecesAvoidSeparator(s: string, sep: string)
    requires sep != []
    ensures forall k :: 0 <= k < |Split(s, sep)| ==> Absent(sep, Split(s, sep)[k])
    decreases |s|
  {
    if IsPrefix(sep, s) {
      SplitPiecesAvoidSeparator(s[|sep|..], sep);
    } else if s != [] {
      var rest := Split(s[1..], sep);
      SplitPiecesAvoidSeparator(s[1..], sep);
      var first := [s[0]] + rest[0];
      forall i | 0 <= i <= |first| ensures !StartsAt(sep, first, i) {
        if i > 0 {
          assert !StartsAt(sep, rest[0], i - 1);
          assert first[i..] == rest[0][i - 1..];
        }
      }
      assert Split(s, sep) == [first] + rest[1..];
    }
  }

  /** A text without the separator is a single piece. */
  lemma {:induction false} SplitWithoutSeparator(s: string, sep: string)
    requires sep != [] && Absent(sep, s)
    ensures Split(s, sep) == [s]
    decreases |s|
  {
    assert !StartsAt(sep, s, 0);
    assert s[0..] == s;
    if s != [] {
      forall i | 0 <= i <= |s[1..]| ensures !StartsAt(sep, s[1..], i) {
        assert !StartsAt(sep, s, i + 1);
        assert s[1..][i..] == s[i + 1..];
      }
      SplitWithoutSeparator(s[1..], sep);
      assert [s[0]] + s[1..] == s;
    }
  }

  /** A text made of a separator-free piece, the separator and a tail splits after the piece. */
  lemma {:induction false} SplitAfterPiece(a: string, sep: string, b: string)
    requires sep != [] && Absent(sep, a + sep[..|sep| - 1])
    ensures Split(a + sep + b, sep) == [a] + Split(b, sep)
    decreases |a|
  {
    var s := a + sep + b;
    if a == [] {
      assert s == sep + b;
      assert IsPrefix(sep, s);
      assert s[|sep|..] == b;
    } else {
      PieceTail(a, sep, b);
      SplitAfterPiece(a[1..], sep, b);
      SplitStep(s, sep);
      ConsOfSeq(a[1..], Split(b, sep), Split(s[1..], sep));
      ConsSplit(a);
    }
  }

  /** A text made of a separator-free piece and a separator does not start with the
      separator, and neither does the piece without its first character. */
  lemma PieceTail(a: string, sep: string, b: string)
    requires sep != [] && a != [] && Absent(sep, a + sep[..|sep| - 1])
    ensures var s := a + sep + b;
      !IsPrefix(sep, s) && s[0] == a[0] && s[1..] == a[1..] + sep + b
    ensures Absent(sep, a[1..] + sep[..|sep| - 1])
  {
    var s := a + sep + b;
    var u := a + sep[..|sep| - 1];
    assert !StartsAt(sep, u, 0);
    assert u[0..][..|sep|] == s[..|sep|];
    var w := a[1..] + sep[..|sep| - 1];
    assert w == u[1..];
    forall i | 0 <= i <= |w| ensures !StartsAt(sep, w, i) {
      assert !StartsAt(sep, u, i + 1);
      DropDrop(u, 1, i);
    }
    assert s[1..] == a[1..] + sep + b;
  }

  /** Where the separator does not start, `split` puts the first character in front of
      the first piece of the rest. */
  lemma SplitStep(s: string, sep: string)
    requires sep != [] && s != [] && !IsPrefix(sep, s)
    ensures var rest := Split(s[1..], sep);
      Split(s, sep) == [[s[0]] + rest[0]] + rest[1..]
  {
  }

  lemma ConsOfSeq<T>(x: T, xs: seq<T>, r: seq<T>)
    requires r == [x] + xs
    ensures r[0] == x && r[1..] == xs
  {
  }

  // ---------------------------------------------------------------------------
  // Python `str.replace`
  // ---------------------------------------------------------------------------

  /** `s.replace(target, replacement)`: scanning from the left, every non-overlapping
      occurrence of `target` becomes `replacement`; an empty target puts the
      replacement before every character and at the end. */
  function Replace(s: string, target: string, replacement: string): string
    decreases |s|
  {
    if target == [] then
      if s == [] then replacement else replacement + [s[0]] + Replace(s[1..], target, replacement)
    else if IsPrefix(target, s) then replacement + Replace(s[|target|..], target, replacement)
    else if s == [] then []
    else [s[0]] + Replace(s[1..], target, replacement)
  }

  /** Replacing a target that does not occur changes nothing. */
  lemma {:induction false} ReplaceAbsent(s: string, target: string, replacement: string)
    requires target != [] && Absent(target, s)
    ensures Replace(s, target, replacement) == s
    decreases |s|
  {
    assert !StartsAt(target, s, 0) && s[0..] == s;
    if s != [] {
      forall i | 0 <= i <= |s[1..]| ensures !StartsAt(target, s[1..], i) {
        assert !StartsAt(target, s, i + 1);
        assert s[1..][i..] == s[i + 1..];
      }
      ReplaceAbsent(s[1..], target, replacement);
    }
  }

  /** No occurrence of `w` starts in `s` before position `n`. */
  predicate NoneStartsBefore(w: string, s: string, n: nat)
  {
    forall i :: 0 <= i < n && i <= |s| ==> !StartsAt(w, s, i)
  }

  /** An occurrence of `w` starts at position `i` of `s`. */
  predicate StartsAt(w: string, s: string, i: nat)
    requires i <= |s|
  {
    IsPrefix(w, s[i..])
  }

  /** A prefix `x` where no occurrence of the target starts is copied unchanged, and
      replacement goes on in what follows it. */
  lemma {:induction false} ReplaceSkipsPrefix(x: string, t: string, target: string, replacement: string)
    requires target != []
    requires NoneStartsBefore(target, x + t, |x|)
    ensures Replace(x + t, target, replacement) == x + Replace(t, target, replacement)
    decreases |x|
  {
    if x == [] {
      assert x + t == t;
    } else {
      var r := Replace(t, target, replacement);
      ConsAppend(x, t);
      ConsAppend(x, r);
      NoneStartsBeforeTail(target, x, t);
      ReplaceCons(x[0], x[1..] + t, target, replacement);
      ReplaceSkipsPrefix(x[1..], t, target, replacement);
    }
  }

  lemma ConsAppend<T>(x: seq<T>, y: seq<T>)
    requires x != []
    ensures [x[0]] + (x[1..] + y) == x + y
  {
  }

  /** Where the target does not start, `str.replace` copies one character and goes on. */
  lemma ReplaceCons(c: char, v: string, target: string, replacement: string)
    requires target != [] && !IsPrefix(target, [c] + v)
    ensures Replace([c] + v, target, replacement) == [c] + Replace(v, target, replacement)
  {
    assert ([c] + v)[1..] == v;
  }

  /** Where no occurrence starts before `|x|`, none starts at 0, and none starts in the
      text without its first character before `|x| - 1`. */
  lemma NoneStartsBeforeTail(target: string, x: string, t: string)
    requires x != [] && NoneStartsBefore(target, x + t, |x|)
    ensures !IsPrefix(target, x + t)
    ensures NoneStartsBefore(target, x[1..] + t, |x| - 1)
  {
    var u, v := x + t, x[1..] + t;
    assert u[0..] == u;
    assert !StartsAt(target, u, 0);
    forall i | 0 <= i < |x| - 1 && i <= |v| ensures !StartsAt(target, v, i) {
      assert !StartsAt(target, u, i + 1);
      assert v[i..] == u[i + 1..];
    }
  }

}
