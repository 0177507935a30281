/**
 Byte strings as the Go code handles them: decimal numerals, cutting at a
 delimiter, trimming white space, and the byte-wise order that sort.Strings uses.

 A Go string and a Go []byte are both sequences of bytes; here both are `string`,
 one char per byte.  Nothing below depends on how many distinct chars there are.
 */
module Text {
  datatype Option<+T> = None | Some(value: T)

  datatype Result<+T, +E> = Ok(value: T) | Err(error: E)

  // ----- digits and numerals -----

  predicate IsDigit(c: char) {
    '0' <= c <= '9'
  }

  predicate AllDigits(s: string) {
    forall i :: 0 <= i < |s| ==> IsDigit(s[i])
  }

  function DigitChar(d: nat): (c: char)
    requires d < 10
    ensures IsDigit(c) && c as int == '0' as int + d
  {
    "0123456789"[d]
  }

  function DigitValue(c: char): (d: nat)
    requires IsDigit(c)
    ensures d < 10
  {
    c as int - '0' as int
  }

  lemma DigitRoundTrip(d: nat)
    requires d < 10
    ensures DigitValue(DigitChar(d)) == d
  {
  }

  lemma DigitCharOf(c: char)
    requires IsDigit(c)
    ensures DigitChar(DigitValue(c)) == c
  {
  }

  /** The decimal form of n, without leading zeros (strconv.FormatUint, fmt's %d). */
  function Dec(n: nat): (s: string)
    ensures |s| > 0 && AllDigits(s)
  {
    if n < 10 then [DigitChar(n)] else Dec(n / 10) + [DigitChar(n % 10)]
  }

  /** The number a digit string denotes, leading zeros allowed. */
  function Val(s: string): nat
    requires AllDigits(s)
  {
    if s == "" then 0 else 10 * Val(s[..|s| - 1]) + DigitValue(s[|s| - 1])
  }

  lemma ValSnoc(s: string, c: char)
    requires AllDigits(s) && IsDigit(c)
    ensures AllDigits(s + [c]) && Val(s + [c]) == 10 * Val(s) + DigitValue(c)
  {
  }

  lemma {:induction false} ValDec(n: nat)
    ensures Val(Dec(n)) == n
    ensures Dec(n)[0] == '0' ==> n == 0
  {
    if n < 10 {
      DigitRoundTrip(n);
      assert Dec(n)[..0] == "";
    } else {
      ValDec(n / 10);
      DigitRoundTrip(n % 10);
      ValSnoc(Dec(n / 10), DigitChar(n % 10));
    }
  }

  lemma DecInjective(m: nat, n: nat)
    requires Dec(m) == Dec(n)
    ensures m == n
  {
    ValDec(m);
    ValDec(n);
  }

  predicate Canonical(s: string) {
    s != "" && AllDigits(s) && (s[0] == '0' ==> |s| == 1)
  }

  /** Dec(n) is the only numeral without leading zeros that denotes n. */
  lemma {:induction false} DecIsUnique(s: string)
    requires Canonical(s)
    ensures Dec(Val(s)) == s
  {
    var k := |s| - 1;
    if k == 0 {
      UniqueDigit(s[0]);
      assert s == [s[0]];
    } else {
      DecIsUnique(s[..k]);
      PositiveNumeral(s[..k]);
      UniqueSnoc(s[..k], s[k]);
      assert s == s[..k] + [s[k]];
    }
  }

  lemma UniqueDigit(c: char)
    requires IsDigit(c)
    ensures Dec(Val([c])) == [c]
  {
    DigitCharOf(c);
    assert [c][..0] == "";
  }

  lemma UniqueSnoc(t: string, c: char)
    requires AllDigits(t) && IsDigit(c) && Val(t) > 0 && Dec(Val(t)) == t
    ensures AllDigits(t + [c]) && Dec(Val(t + [c])) == t + [c]
  {
    ValSnoc(t, c);
    DecSnoc(Val(t), DigitValue(c));
    DigitCharOf(c);
  }

  lemma DecSnoc(v: nat, d: nat)
    requires v > 0 && d < 10
    ensures Dec(10 * v + d) == Dec(v) + [DigitChar(d)]
  {
    var n := 10 * v + d;
    assert n / 10 == v && n % 10 == d;
  }

  lemma {:induction false} PositiveNumeral(s: string)
    requires s != "" && AllDigits(s) && s[0] != '0'
    ensures Val(s) > 0
  {
    if |s| > 1 {
      PositiveNumeral(s[..|s| - 1]);
    }
  }

  function Pow10(k: nat): (p: nat)
    ensures p > 0
  {
    if k == 0 then 1 else 10 * Pow10(k - 1)
  }

  /** n in exactly w digits, zero padded; high digits are cut off if n is too long. */
  function Pad(n: nat, w: nat): (s: string)
    ensures |s| == w && AllDigits(s)
  {
    if w == 0 then "" else Pad(n / 10, w - 1) + [DigitChar(n % 10)]
  }

  lemma PadSnoc(t: string, n: nat)
    requires AllDigits(t) && Val(t) == n / 10
    ensures Val(t + [DigitChar(n % 10)]) == n
  {
    DigitRoundTrip(n % 10);
    ValSnoc(t, DigitChar(n % 10));
  }

  lemma {:induction false} ValPad(n: nat, w: nat)
    requires n < Pow10(w)
    ensures Val(Pad(n, w)) == n
  {
    if w != 0 {
      assert n / 10 < Pow10(w - 1);
      ValPad(n / 10, w - 1);
      PadSnoc(Pad(n / 10, w - 1), n);
    }
  }

  // ----- cutting at a delimiter -----

  /** What precedes and what follows the first c in s. */
  function Cut(s: string, c: char): Option<(string, string)> {
    if s == "" then None
    else if s[0] == c then Some(("", s[1..]))
    else
      match Cut(s[1..], c)
      case None => None
      case Some((a, b)) => Some(([s[0]] + a, b))
  }

  lemma {:induction false} CutAt(a: string, c: char, b: string)
    requires c !in a
    ensures Cut(a + [c] + b, c) == Some((a, b))
  {
    var s := a + [c] + b;
    if a == "" {
      assert s[1..] == b;
    } else {
      assert s[1..] == a[1..] + [c] + b;
      CutAt(a[1..], c, b);
      assert a == [a[0]] + a[1..];
    }
  }

  lemma {:induction false} CutSound(s: string, c: char)
    ensures Cut(s, c).Some? ==>
              var (a, b) := Cut(s, c).value; c !in a && s == a + [c] + b
  {
    if s != "" && s[0] != c {
      CutSound(s[1..], c);
    }
  }

  lemma PrefixDrops(p: string, s: string)
    ensures p <= p + s && (p + s)[|p|..] == s
  {
  }

  lemma ConcatAssociates(a: string, b: string, c: string)
    ensures (a + b) + c == a + (b + c)
  {
  }

  /** Two texts with the same delimiter split the same way. */
  lemma CutUnique(a: string, b: string, a': string, b': string, c: char)
    requires c !in a && c !in a'
    requires a + [c] + b == a' + [c] + b'
    ensures a == a' && b == b'
  {
    CutAt(a, c, b);
    CutAt(a', c, b');
  }

  // ----- joining -----

  function Joined(xs: seq<string>): string {
    if xs == [] then "" else xs[0] + Joined(xs[1..])
  }

  lemma {:induction false} JoinedAppend(xs: seq<string>, ys: seq<string>)
    ensures Joined(xs + ys) == Joined(xs) + Joined(ys)
  {
    if xs == [] {
      assert xs + ys == ys;
    } else {
      JoinedAppend(xs[1..], ys);
      assert (xs + ys)[1..] == xs[1..] + ys;
      ConcatAssociates(xs[0], Joined(xs[1..]), Joined(ys));
    }
  }

  lemma JoinedSnoc(xs: seq<string>, x: string)
    ensures Joined(xs + [x]) == Joined(xs) + x
  {
    JoinedAppend(xs, [x]);
    assert [x][1..] == [];
  }

  // ----- lines -----

  /** The lines of a text; what follows the last newline is not one. */
  function LinesOf(s: string): seq<string>
    decreases |s|
  {
    match Cut(s, '\n')
    case None => []
    case Some((line, rest)) =>
      CutSound(s, '\n');
      [line] + LinesOf(rest)
  }

  /** Nothing follows the last newline. */
  predicate Ended(s: string) {
    s == "" || s[|s| - 1] == '\n'
  }

  /** Each text followed by a newline. */
  function Terminated(lines: seq<string>): (s: string)
    ensures Ended(s)
  {
    if lines == [] then "" else Terminated(lines[..|lines| - 1]) + (lines[|lines| - 1] + "\n")
  }

  lemma {:induction false} LinesHaveNoNewline(s: string)
    ensures forall line :: line in LinesOf(s) ==> '\n' !in line
    decreases |s|
  {
    CutSound(s, '\n');
    if Cut(s, '\n').Some? {
      LinesHaveNoNewline(Cut(s, '\n').value.1);
    }
  }

  lemma LinesStep(line: string, rest: string)
    requires '\n' !in line
    ensures LinesOf(line + "\n" + rest) == [line] + LinesOf(rest)
  {
    CutAt(line, '\n', rest);
  }

  lemma {:induction false} CutFinds(s: string, c: char)
    requires c in s
    ensures Cut(s, c).Some?
  {
    if s[0] != c {
      assert s == [s[0]] + s[1..];
      CutFinds(s[1..], c);
    }
  }

  /** What is appended to an ended text starts a new line. */
  lemma {:induction false} LinesAppend(a: string, b: string)
    requires Ended(a)
    ensures LinesOf(a + b) == LinesOf(a) + LinesOf(b)
    decreases |a|
  {
    if a == "" {
      assert a + b == b;
    } else {
      CutFinds(a, '\n');
      CutSound(a, '\n');
      var (line, rest) := Cut(a, '\n').value;
      assert rest != "" ==> rest[|rest| - 1] == a[|a| - 1];
      LinesAppend(rest, b);
      LinesAppendStep(line, rest, b);
    }
  }

  lemma LinesAppendStep(line: string, rest: string, b: string)
    requires '\n' !in line && LinesOf(rest + b) == LinesOf(rest) + LinesOf(b)
    ensures LinesOf(line + "\n" + rest + b) == LinesOf(line + "\n" + rest) + LinesOf(b)
  {
    ConcatAssociates(line + "\n", rest, b);
    LinesStep(line, rest + b);
    LinesStep(line, rest);
    assert [line] + (LinesOf(rest) + LinesOf(b)) == ([line] + LinesOf(rest)) + LinesOf(b);
  }

  lemma {:induction false} TerminatedReadsBack(lines: seq<string>)
    requires forall line :: line in lines ==> '\n' !in line
    ensures LinesOf(Terminated(lines)) == lines
  {
    if lines != [] {
      var k := |lines| - 1;
      TerminatedReadsBack(lines[..k]);
      LinesAppend(Terminated(lines[..k]), lines[k] + "\n");
      assert lines[k] + "\n" == lines[k] + "\n" + "";
      LinesStep(lines[k], "");
      assert lines == lines[..k] + [lines[k]];
    }
  }

  /** Lines appended to an ended text read back if and only if none of them holds a newline. */
  lemma AppendedReadBack(before: string, lines: seq<string>)
    requires Ended(before)
    ensures LinesOf(before + Terminated(lines)) == LinesOf(before) + lines <==>
            forall line :: line in lines ==> '\n' !in line
  {
    LinesAppend(before, Terminated(lines));
    LinesHaveNoNewline(Terminated(lines));
    TailsCancel(LinesOf(before), LinesOf(Terminated(lines)), lines);
    if forall line :: line in lines ==> '\n' !in line {
      TerminatedReadsBack(lines);
    }
  }

  lemma TailsCancel(a: seq<string>, b: seq<string>, c: seq<string>)
    ensures a + b == a + c <==> b == c
  {
    assert b == (a + b)[|a|..] && c == (a + c)[|a|..];
  }

  // ----- white space (unicode.IsSpace and strings.TrimSpace) -----

  // What unicode.IsSpace accepts, by the bytes of its UTF-8 form.

  predicate Space1(a: char) {
    '\t' <= a <= '\r' || a == ' '
  }

  predicate Space2(a: char, b: char) {
    a == '\U{C2}' && (b == '\U{85}' || b == '\U{A0}')
  }

  predicate Space3(a: char, b: char, c: char) {
    || (a == '\U{E1}' && b == '\U{9A}' && c == '\U{80}')
    || (a == '\U{E2}' && b == '\U{80}'
        && ('\U{80}' <= c <= '\U{8A}' || c == '\U{A8}' || c == '\U{A9}' || c == '\U{AF}'))
    || (a == '\U{E2}' && b == '\U{81}' && c == '\U{9F}')
    || (a == '\U{E3}' && b == '\U{80}' && c == '\U{80}')
  }

  /** How many bytes the white-space code point at the start of s takes; 0 if there is none. */
  function SpacePrefix(s: string): (k: nat)
    ensures k <= |s|
  {
    if |s| >= 1 && Space1(s[0]) then 1
    else if |s| >= 2 && Space2(s[0], s[1]) then 2
    else if |s| >= 3 && Space3(s[0], s[1], s[2]) then 3
    else 0
  }

  /** The same at the end of s. */
  function SpaceSuffix(s: string): (k: nat)
    ensures k <= |s|
  {
    var n := |s|;
    if n >= 1 && Space1(s[n - 1]) then 1
    else if n >= 2 && Space2(s[n - 2], s[n - 1]) then 2
    else if n >= 3 && Space3(s[n - 3], s[n - 2], s[n - 1]) then 3
    else 0
  }

  function TrimLeft(s: string): string {
    if SpacePrefix(s) > 0 then TrimLeft(s[SpacePrefix(s)..]) else s
  }

  function TrimRight(s: string): string {
    if SpaceSuffix(s) > 0 then TrimRight(s[..|s| - SpaceSuffix(s)]) else s
  }

  function TrimSpace(s: string): string {
    TrimRight(TrimLeft(s))
  }

  predicate Trimmed(s: string) {
    SpacePrefix(s) == 0 && SpaceSuffix(s) == 0
  }

  /** A text that begins and ends with a visible ASCII character. */
  lemma VisibleIsTrimmed(s: string)
    requires s != "" && '!' <= s[0] <= '~' && '!' <= s[|s| - 1] <= '~'
    ensures Trimmed(s)
  {
  }

  lemma TrimmedIsFixed(s: string)
    requires Trimmed(s)
    ensures TrimSpace(s) == s
  {
  }

  lemma ShorterStart(s: string, k: nat)
    requires SpacePrefix(s) == 0 && k <= |s|
    ensures SpacePrefix(s[..k]) == 0
  {
  }

  lemma {:induction false} TrimRightTrims(s: string)
    requires SpacePrefix(s) == 0
    ensures Trimmed(TrimRight(s))
  {
    if SpaceSuffix(s) > 0 {
      ShorterStart(s, |s| - SpaceSuffix(s));
      TrimRightTrims(s[..|s| - SpaceSuffix(s)]);
    }
  }

  lemma {:induction false} TrimLeftTrims(s: string)
    ensures SpacePrefix(TrimLeft(s)) == 0
  {
    if SpacePrefix(s) > 0 {
      TrimLeftTrims(s[SpacePrefix(s)..]);
    }
  }

  lemma TrimSpaceTrims(s: string)
    ensures Trimmed(TrimSpace(s))
  {
    TrimLeftTrims(s);
    TrimRightTrims(TrimLeft(s));
  }

  // ----- byte-wise order and sorting (sort.Strings) -----

  predicate Less(a: string, b: string) {
    b != "" && (a == "" || a[0] < b[0] || (a[0] == b[0] && Less(a[1..], b[1..])))
  }

  /** The texts agree up to k, where a ends or has the smaller byte. */
  predicate DiffersAt(a: string, b: string, k: nat) {
    k <= |a| && k < |b| && a[..k] == b[..k] && (k == |a| || a[k] < b[k])
  }

  /** Less compares at the first byte in which the texts differ. */
  lemma {:induction false} LessExactly(a: string, b: string)
    ensures Less(a, b) <==> exists k: nat :: DiffersAt(a, b, k)
  {
    if a != "" && b != "" && a[0] == b[0] {
      LessExactly(a[1..], b[1..]);
      if k: nat :| DiffersAt(a[1..], b[1..], k) {
        assert a[..k + 1] == [a[0]] + a[1..][..k];
        assert b[..k + 1] == [b[0]] + b[1..][..k];
        assert DiffersAt(a, b, k + 1);
      }
      if k: nat :| DiffersAt(a, b, k) {
        assert a[..k][1..] == a[1..][..k - 1];
        assert b[..k][1..] == b[1..][..k - 1];
        assert DiffersAt(a[1..], b[1..], k - 1);
      }
    } else if b != "" && (a == "" || a[0] < b[0]) {
      assert DiffersAt(a, b, 0);
    }
  }

  lemma {:induction false} LessIrreflexive(a: string)
    ensures !Less(a, a)
  {
    if a != "" {
      LessIrreflexive(a[1..]);
    }
  }

  lemma {:induction false} LessTransitive(a: string, b: string, c: string)
    requires Less(a, b) && Less(b, c)
    ensures Less(a, c)
  {
    if a != "" && a[0] == b[0] == c[0] {
      LessTransitive(a[1..], b[1..], c[1..]);
    }
  }

  lemma {:induction false} LessTotal(a: string, b: string)
    ensures a == b || Less(a, b) || Less(b, a)
  {
    if a != "" && b != "" && a[0] == b[0] {
      LessTotal(a[1..], b[1..]);
      if a[1..] == b[1..] {
        assert a == [a[0]] + a[1..];
        assert b == [b[0]] + b[1..];
      }
    }
  }

  predicate StrictlySorted(s: seq<string>) {
    forall i, j :: 0 <= i < j < |s| ==> Less(s[i], s[j])
  }

  predicate Distinct<T(==)>(s: seq<T>) {
    forall i, j :: 0 <= i < j < |s| ==> s[i] != s[j]
  }

  function Elems<T>(s: seq<T>): set<T> {
    set x | x in s
  }

  function Insert(x: string, s: seq<string>): (r: seq<string>)
    ensures Elems(r) == Elems(s) + {x}
    ensures |r| == |s| + 1
  {
    if s == [] || !Less(s[0], x) then [x] + s
    else
      var r := [s[0]] + Insert(x, s[1..]);
      assert Elems(r) == {s[0]} + Elems(Insert(x, s[1..]));
      assert Elems(s) == {s[0]} + Elems(s[1..]);
      r
  }

  function Sort(s: seq<string>): (r: seq<string>)
    ensures Elems(r) == Elems(s)
    ensures |r| == |s|
  {
    if s == [] then []
    else
      assert Elems(s) == {s[0]} + Elems(s[1..]);
      Insert(s[0], Sort(s[1..]))
  }

  lemma {:induction false} InsertKeepsOrder(x: string, s: seq<string>)
    requires StrictlySorted(s) && x !in s
    ensures StrictlySorted(Insert(x, s))
  {
    if s == [] {
    } else if Less(s[0], x) {
      InsertKeepsOrder(x, s[1..]);
      var t := Insert(x, s[1..]);
      forall j | 0 <= j < |t| ensures Less(s[0], t[j]) {
        assert t[j] in Elems(t);
        assert t[j] in Elems(s[1..]) + {x};
        if t[j] != x {
          var k :| 0 <= k < |s[1..]| && s[1..][k] == t[j];
          assert s[1..][k] == s[k + 1];
        }
      }
    } else {
      LessTotal(s[0], x);
      forall j | 0 <= j < |s| ensures Less(x, s[j]) {
        if j > 0 {
          LessTransitive(x, s[0], s[j]);
        }
      }
    }
  }

  lemma {:induction false} SortSorts(s: seq<string>)
    requires Distinct(s)
    ensures StrictlySorted(Sort(s))
  {
    if s != [] {
      SortSorts(s[1..]);
      assert s[0] !in s[1..];
      assert s[0] !in Elems(Sort(s[1..]));
      InsertKeepsOrder(s[0], Sort(s[1..]));
    }
  }

  /** r lists exactly the members of S, in increasing order. */
  predicate Lists(r: seq<string>, S: set<string>) {
    StrictlySorted(r) && Elems(r) == S
  }

  lemma SortedIsDistinct(r: seq<string>)
    requires StrictlySorted(r)
    ensures Distinct(r)
  {
    forall i, j | 0 <= i < j < |r| ensures r[i] != r[j] {
      LessIrreflexive(r[i]);
    }
  }

  lemma {:induction false} DistinctSize<T>(r: seq<T>)
    requires Distinct(r)
    ensures |Elems(r)| == |r|
  {
    if r != [] {
      DistinctSize(r[1..]);
      assert Elems(r) == {r[0]} + Elems(r[1..]);
    }
  }

  /** The increasing listing of a set is unique, so its length and order carry no history. */
  lemma {:induction false} ListingUnique(r: seq<string>, q: seq<string>)
    requires StrictlySorted(r) && StrictlySorted(q) && Elems(r) == Elems(q)
    ensures r == q
  {
    SortedIsDistinct(r);
    SortedIsDistinct(q);
    DistinctSize(r);
    DistinctSize(q);
    if r != [] {
      assert r[0] in Elems(r) && q[0] in Elems(q);
      HeadIsLeast(r, q[0]);
      HeadIsLeast(q, r[0]);
      if r[0] != q[0] {
        LessTransitive(r[0], q[0], r[0]);
        LessIrreflexive(r[0]);
      }
      assert Elems(r[1..]) == Elems(r) - {r[0]};
      assert Elems(q[1..]) == Elems(q) - {q[0]};
      ListingUnique(r[1..], q[1..]);
    }
  }

  lemma HeadIsLeast(r: seq<string>, x: string)
    requires StrictlySorted(r) && x in r
    ensures r[0] == x || Less(r[0], x)
  {
  }
}
