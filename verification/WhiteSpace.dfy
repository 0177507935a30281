/** What counts as white space, and what trimming it leaves. */
module WhiteSpace {
  import opened Text

  // ----- the code points (Unicode's White_Space property) -----

  const WHITE_SPACE: set<int> := {
    0x9, 0xA, 0xB, 0xC, 0xD, 0x20, 0x85, 0xA0, 0x1680, 0x2000, 0x2001, 0x2002, 0x2003, 0x2004, 0x2005,
    0x2006, 0x2007, 0x2008, 0x2009, 0x200A, 0x2028, 0x2029, 0x202F, 0x205F, 0x3000}

  function Byte(b: int): char
    requires 0 <= b < 256
  {
    b as char
  }

  /** The UTF-8 form of a code point (section 3 of RFC 3629). */
  function Utf8(c: int): string
    requires 0 <= c < 0x110000
  {
    if c < 0x80 then [Byte(c)]
    else if c < 0x800 then [Byte(0xC0 + c / 64), Byte(0x80 + c % 64)]
    else if c < 0x10000 then [Byte(0xE0 + c / 4096), Byte(0x80 + c / 64 % 64), Byte(0x80 + c % 64)]
    else
      [Byte(0xF0 + c / 262144), Byte(0x80 + c / 4096 % 64), Byte(0x80 + c / 64 % 64), Byte(0x80 + c % 64)]
  }

  /** One white-space code point and nothing else. */
  predicate IsSpace(x: string) {
    x != "" && SpacePrefix(x) == |x|
  }

  /** Trimming takes off exactly the code points with the White_Space property. */
  lemma SpaceExactly(c: int)
    requires 0 <= c < 0x110000
    ensures IsSpace(Utf8(c)) <==> c in WHITE_SPACE
  {
    if c < 0x80 {
    } else if c < 0x800 {
      TwoBytes(c);
    } else if c < 0x10000 {
      ThreeBytes(c);
    }
  }

  lemma TwoBytes(c: int)
    requires 0x80 <= c < 0x800
    ensures IsSpace(Utf8(c)) <==> c == 0x85 || c == 0xA0
  {
    var a, b := c / 64, c % 64;
    assert c == 64 * a + b;
  }

  lemma ThreeBytes(c: int)
    requires 0x800 <= c < 0x10000
    ensures IsSpace(Utf8(c)) <==>
              c == 0x1680 || 0x2000 <= c <= 0x200A || c == 0x2028 || c == 0x2029 || c == 0x202F
              || c == 0x205F || c == 0x3000
  {
    var a, m, b := c / 4096, c / 64 % 64, c % 64;
    assert c == 4096 * a + 64 * m + b by {
      assert c == 64 * (c / 64) + b;
      assert c / 64 == 64 * (c / 64 / 64) + m;
      assert c / 64 / 64 == a;
    }
  }

  // ----- trimming -----

  predicate AllSpaces(xs: seq<string>) {
    forall x :: x in xs ==> IsSpace(x)
  }

  lemma SpaceIsRead(x: string, rest: string)
    requires IsSpace(x)
    ensures SpacePrefix(x + rest) == |x| && SpaceSuffix(rest + x) == |x|
  {
  }

  lemma {:induction false} TrimLeftTakes(xs: seq<string>, rest: string)
    requires AllSpaces(xs)
    ensures TrimLeft(Joined(xs) + rest) == TrimLeft(rest)
  {
    if xs == [] {
      assert Joined(xs) + rest == rest;
    } else {
      ConcatAssociates(xs[0], Joined(xs[1..]), rest);
      SpaceIsRead(xs[0], Joined(xs[1..]) + rest);
      PrefixDrops(xs[0], Joined(xs[1..]) + rest);
      TrimLeftTakes(xs[1..], rest);
    }
  }

  lemma {:induction false} TrimRightTakes(rest: string, xs: seq<string>)
    requires AllSpaces(xs)
    ensures TrimRight(rest + Joined(xs)) == TrimRight(rest)
  {
    if xs == [] {
      assert rest + Joined(xs) == rest;
    } else {
      var k := |xs| - 1;
      assert xs == xs[..k] + [xs[k]];
      JoinedSnoc(xs[..k], xs[k]);
      ConcatAssociates(rest, Joined(xs[..k]), xs[k]);
      var front := rest + Joined(xs[..k]);
      SpaceIsRead(xs[k], front);
      assert (front + xs[k])[..|front|] == front;
      TrimRightTakes(rest, xs[..k]);
    }
  }

  /** A trimmed text stays in front of white space: no code point straddles the border. */
  lemma NoStraddle(s: string, xs: seq<string>)
    requires Trimmed(s) && s != "" && AllSpaces(xs)
    ensures SpacePrefix(s + Joined(xs)) == 0
  {
    if xs != [] {
      assert IsSpace(xs[0]);
    }
  }

  lemma TrimTakes(before: seq<string>, s: string, after: seq<string>)
    requires AllSpaces(before) && AllSpaces(after) && Trimmed(s)
    ensures TrimSpace(Joined(before) + s + Joined(after)) == s
  {
    ConcatAssociates(Joined(before), s, Joined(after));
    TrimLeftTakes(before, s + Joined(after));
    if s == "" {
      assert s + Joined(after) == Joined(after) + "";
      TrimLeftTakes(after, "");
    } else {
      NoStraddle(s, after);
      TrimRightTakes(s, after);
    }
  }

  lemma ConsSpaces(x: string, k: nat, rest: seq<string>, core: string)
    requires 0 < k <= |x| && IsSpace(x[..k]) && AllSpaces(rest) && x[k..] == Joined(rest) + core
    ensures AllSpaces([x[..k]] + rest) && x == Joined([x[..k]] + rest) + core
  {
    assert ([x[..k]] + rest)[1..] == rest;
    assert x == x[..k] + x[k..];
    ConcatAssociates(x[..k], Joined(rest), core);
  }

  lemma SnocSpaces(x: string, k: nat, rest: seq<string>, core: string)
    requires k < |x| && IsSpace(x[k..]) && AllSpaces(rest) && x[..k] == core + Joined(rest)
    ensures AllSpaces(rest + [x[k..]]) && x == core + Joined(rest + [x[k..]])
  {
    assert x == x[..k] + x[k..];
    JoinedSnoc(rest, x[k..]);
    ConcatAssociates(core, Joined(rest), x[k..]);
  }

  lemma FirstIsSpace(x: string)
    requires SpacePrefix(x) > 0
    ensures IsSpace(x[..SpacePrefix(x)])
  {
  }

  lemma LastIsSpace(x: string)
    requires SpaceSuffix(x) > 0
    ensures IsSpace(x[|x| - SpaceSuffix(x)..])
  {
  }

  lemma {:induction false} LeftSplits(x: string) returns (xs: seq<string>)
    ensures AllSpaces(xs) && x == Joined(xs) + TrimLeft(x)
    decreases |x|
  {
    var k := SpacePrefix(x);
    if k == 0 {
      return [];
    }
    var rest := LeftSplits(x[k..]);
    FirstIsSpace(x);
    ConsSpaces(x, k, rest, TrimLeft(x));
    xs := [x[..k]] + rest;
  }

  lemma {:induction false} RightSplits(x: string) returns (xs: seq<string>)
    ensures AllSpaces(xs) && x == TrimRight(x) + Joined(xs)
    decreases |x|
  {
    var k := |x| - SpaceSuffix(x);
    if k == |x| {
      return [];
    }
    var rest := RightSplits(x[..k]);
    LastIsSpace(x);
    SnocSpaces(x, k, rest, TrimRight(x));
    xs := rest + [x[k..]];
  }

  predicate Padded(x: string, before: seq<string>, s: string, after: seq<string>) {
    AllSpaces(before) && AllSpaces(after) && x == Joined(before) + s + Joined(after)
  }

  /** TrimSpace gives the one trimmed text that x is, but for white space around it. */
  lemma TrimSpaceExactly(x: string, s: string)
    ensures TrimSpace(x) == s <==> Trimmed(s) && exists before, after :: Padded(x, before, s, after)
  {
    if TrimSpace(x) == s {
      TrimSpaceTrims(x);
      var before := LeftSplits(x);
      var after := RightSplits(TrimLeft(x));
      ConcatAssociates(Joined(before), s, Joined(after));
      assert Padded(x, before, s, after);
    }
    if Trimmed(s) {
      if before, after :| Padded(x, before, s, after) {
        TrimTakes(before, s, after);
      }
    }
  }
}
