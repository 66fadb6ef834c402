/** The release #defines mkversion.c derives from the first line of the VERSION file:
    the version triple `vn`, RELEASE_VERSION_NUMBER and RELEASE_RESOURCE_VERSION. */
module ReleaseVersion {
  import opened CText

  /** The three integers `vn[0]`, `vn[1]`, `vn[2]`. */
  datatype Version = Version(major: nat, minor: nat, patch: nat)

  /** One more character after the fields `f`: a digit joins the last field, anything else
      closes it and opens an empty one. */
  function Extend(f: seq<string>, c: char): (g: seq<string>)
    requires |f| >= 1
    ensures |g| >= 1
  {
    if IsDigit(c) then f[..|f| - 1] + [f[|f| - 1] + [c]] else f + [[]]
  }

  /** The digit runs of `s`: every non-digit character (and the end of the text) closes one,
      so two adjacent separators close an empty run. */
  function Fields(s: string): (f: seq<string>)
    ensures |f| >= 1
  {
    if s == [] then [[]] else Extend(Fields(s[..|s| - 1]), s[|s| - 1])
  }

  lemma FieldsSnoc(s: string, e: char)
    ensures Fields(s + [e]) == Extend(Fields(s), e)
  {
    assert (s + [e])[..|s|] == s;
  }

  /** Every field is a digit string. */
  lemma {:induction false} FieldsAreDigits(s: string)
    ensures forall k :: 0 <= k < |Fields(s)| ==> AllDigits(Fields(s)[k])
  {
    if s != [] {
      var s', c := s[..|s| - 1], s[|s| - 1];
      FieldsAreDigits(s');
      var f := Fields(s');
      if IsDigit(c) {
        var g := Extend(f, c);
        forall k | 0 <= k < |g| ensures AllDigits(g[k]) {
          if k < |f| - 1 { assert g[k] == f[k]; }
        }
      }
    }
  }

  function NonDigitCount(s: string): nat
  {
    if s == [] then 0
    else NonDigitCount(s[..|s| - 1]) + (if IsDigit(s[|s| - 1]) then 0 else 1)
  }

  /** Each non-digit character ends exactly one field. */
  lemma {:induction false} FieldCount(s: string)
    ensures |Fields(s)| == NonDigitCount(s) + 1
  {
    if s != [] {
      FieldCount(s[..|s| - 1]);
    }
  }

  function Concat(ss: seq<string>): string
  {
    if ss == [] then [] else Concat(ss[..|ss| - 1]) + ss[|ss| - 1]
  }

  /** Read one after another, the fields are exactly the digits of the text. */
  lemma {:induction false} FieldsConcat(s: string)
    ensures Concat(Fields(s)) == Digits(s)
  {
    if s != [] {
      var s' := s[..|s| - 1];
      var c := s[|s| - 1];
      var f := Fields(s');
      FieldsConcat(s');
      var init := f[..|f| - 1];
      assert f == init + [f[|f| - 1]];
      if IsDigit(c) {
        var g := init + [f[|f| - 1] + [c]];
        assert g[..|g| - 1] == init;
        assert Concat(g) == Concat(init) + f[|f| - 1] + [c];
        assert Concat(f) == Concat(init) + f[|f| - 1] by { assert f[..|f| - 1] == init; }
      } else {
        var g := f + [[]];
        assert g[..|g| - 1] == f;
      }
    }
  }

  /** A text with no separator is a single field. */
  lemma {:induction false} FieldsOfDigits(d: string)
    requires AllDigits(d)
    ensures Fields(d) == [d]
  {
    if d != [] {
      FieldsOfDigits(d[..|d| - 1]);
      assert d == d[..|d| - 1] + [d[|d| - 1]];
    }
  }

  lemma ExtendAppend(fa: seq<string>, fb: seq<string>, e: char)
    requires |fb| >= 1
    ensures Extend(fa + fb, e) == fa + Extend(fb, e)
  {
    var x := fa + fb;
    if IsDigit(e) {
      assert x[..|x| - 1] == fa + fb[..|fb| - 1];
    }
  }

  /** A separator splits the field list in two. */
  lemma {:induction false} FieldsSplit(a: string, c: char, b: string)
    requires !IsDigit(c)
    ensures Fields(a + [c] + b) == Fields(a) + Fields(b)
  {
    if b == [] {
      assert a + [c] + b == a + [c];
      FieldsSnoc(a, c);
    } else {
      var b', e := b[..|b| - 1], b[|b| - 1];
      assert a + [c] + b == (a + [c] + b') + [e];
      assert b == b' + [e];
      FieldsSnoc(a + [c] + b', e);
      FieldsSnoc(b', e);
      FieldsSplit(a, c, b');
      ExtendAppend(Fields(a), Fields(b'), e);
    }
  }

  /** Field `k` of `s` read as a number, or 0 when `s` has fewer fields. */
  function FieldValue(s: string, k: nat): nat
  {
    FieldsAreDigits(s);
    var f := Fields(s);
    if k < |f| then Value(f[k]) else 0
  }

  /** The version triple: the values of the first three fields, later fields ignored,
      missing ones 0. */
  function VersionOf(s: string): (v: Version)
    ensures |Fields(s)| < 3 ==> v.patch == 0
    ensures |Fields(s)| < 2 ==> v.minor == 0 && v.patch == 0
  {
    Version(FieldValue(s, 0), FieldValue(s, 1), FieldValue(s, 2))
  }

  /** A digit extends the value of the last field by one decimal place. */
  lemma ScanDigit(p: string, c: char)
    requires IsDigit(c)
    ensures |Fields(p + [c])| == |Fields(p)|
    ensures forall k :: 0 <= k < |Fields(p)| - 1 ==> FieldValue(p + [c], k) == FieldValue(p, k)
    ensures FieldValue(p + [c], |Fields(p)| - 1) == FieldValue(p, |Fields(p)| - 1) * 10 + DigitValue(c)
  {
    FieldsSnoc(p, c);
    var f := Fields(p);
    var g := Fields(p + [c]);
    var last := f[|f| - 1];
    assert g[|g| - 1] == last + [c];
    assert (last + [c])[..|last|] == last;
  }

  /** A separator closes the last field and opens one worth 0. */
  lemma ScanSeparator(p: string, c: char)
    requires !IsDigit(c)
    ensures |Fields(p + [c])| == |Fields(p)| + 1
    ensures forall k :: 0 <= k < |Fields(p)| ==> FieldValue(p + [c], k) == FieldValue(p, k)
    ensures FieldValue(p + [c], |Fields(p)|) == 0
  {
    FieldsSnoc(p, c);
  }

  /** Three digit strings joined by '.' are three fields. */
  lemma ThreeFields(da: string, db: string, dc: string)
    requires AllDigits(da) && AllDigits(db) && AllDigits(dc)
    ensures Fields(da + "." + db + "." + dc) == [da, db, dc]
  {
    var ab := da + ['.'] + db;
    assert da + "." + db + "." + dc == ab + ['.'] + dc;
    FieldsOfDigits(da);
    FieldsOfDigits(db);
    FieldsOfDigits(dc);
    FieldsSplit(da, '.', db);
    FieldsSplit(ab, '.', dc);
  }

  /** Writing a triple as "a.b.c" and scanning it again gives the triple back. */
  lemma VersionRoundTrip(a: nat, b: nat, c: nat)
    ensures VersionOf(Decimal(a) + "." + Decimal(b) + "." + Decimal(c)) == Version(a, b, c)
  {
    var s := Decimal(a) + "." + Decimal(b) + "." + Decimal(c);
    ThreeFields(Decimal(a), Decimal(b), Decimal(c));
    ValueOfDecimal(a);
    ValueOfDecimal(b);
    ValueOfDecimal(c);
    assert FieldValue(s, 0) == a && FieldValue(s, 1) == b && FieldValue(s, 2) == c;
  }

  /** Whatever follows the third field is ignored. */
  lemma LaterFieldsIgnored(s: string, c: char, rest: string)
    requires !IsDigit(c) && |Fields(s)| >= 3
    ensures VersionOf(s + [c] + rest) == VersionOf(s)
  {
    FieldsSplit(s, c, rest);
  }

  /** `3.39.2` gives (3,39,2) and `1.0` gives (1,0,0). */
  lemma VersionExamples()
    ensures VersionOf("3.39.2") == Version(3, 39, 2)
    ensures VersionOf("1.0") == Version(1, 0, 0)
  {
    assert Decimal(39) == "39";
    VersionRoundTrip(3, 39, 2);
    assert "3.39.2" == Decimal(3) + "." + Decimal(39) + "." + Decimal(2);
    var one, zero := Decimal(1), Decimal(0);
    FieldsOfDigits(one);
    FieldsOfDigits(zero);
    FieldsSplit(one, '.', zero);
    assert "1.0" == one + ['.'] + zero;
    ValueOfDecimal(1);
    ValueOfDecimal(0);
  }

  function Min(a: int, b: int): int { if a < b then a else b }

  /** What `vn` holds once `j` fields of `p` have been stored: their values, zero beyond. */
  function Slots(p: string, j: nat): seq<nat>
  {
    [if 0 < j then FieldValue(p, 0) else 0,
     if 1 < j then FieldValue(p, 1) else 0,
     if 2 < j then FieldValue(p, 2) else 0]
  }

  /** The scan's variables after it has read `p`: `x` holds the value of the open field,
      `j` counts the stored fields, and `vn` holds the first `j` field values, zero beyond. */
  ghost predicate ScanState(p: string, x: nat, j: nat, vn: seq<nat>)
  {
    x == FieldValue(p, |Fields(p)| - 1) && j == Min(3, |Fields(p)| - 1) && vn == Slots(p, j)
  }

  lemma ScanStateDigit(p: string, c: char, x: nat, j: nat, vn: seq<nat>)
    requires ScanState(p, x, j, vn) && IsDigit(c)
    ensures ScanState(p + [c], x * 10 + DigitValue(c), j, vn)
  {
    ScanDigit(p, c);
  }

  lemma ScanStateSeparator(p: string, c: char, x: nat, j: nat, vn: seq<nat>)
    requires ScanState(p, x, j, vn) && !IsDigit(c)
    ensures ScanState(p + [c], 0, Min(3, j + 1), if j < 3 then vn[j := x] else vn)
  {
    ScanSeparator(p, c);
    if j < 3 {
      assert j == |Fields(p)| - 1;
      assert vn[j := x] == Slots(p + [c], j + 1);
    } else {
      assert vn == Slots(p + [c], 3);
    }
  }

  /** Once the terminating NUL has closed the last field, `vn` holds the version triple. */
  lemma ScanDone(b: string, j: nat, vn: seq<nat>)
    requires ScanState(b + ['\0'], 0, j, vn)
    ensures Version(vn[0], vn[1], vn[2]) == VersionOf(b)
  {
    ScanSeparator(b, '\0');
  }

  /** One character of the scan, mkversion.c:151-157: a digit extends `x`; anything else
      stores `x` in the next free slot of `vn`, if any, and resets `x`. */
  method ScanChar(ghost p: string, c: char, x: nat, j: nat, vn: seq<nat>) returns (x': nat, j': nat, vn': seq<nat>)
    requires ScanState(p, x, j, vn)
    ensures ScanState(p + [c], x', j', vn')
  {
    x', j', vn' := x, j, vn;
    if IsDigit(c) {
      ScanStateDigit(p, c, x, j, vn);
      x' := x * 10 + DigitValue(c);
    } else {
      ScanStateSeparator(p, c, x, j, vn);
      if j < 3 {
        vn' := vn[j := x];
        j' := j + 1;
      }
      x' := 0;
    }
  }

  /** The scan meets its NUL exactly at the end of the text; before that it reads `b[z]`. */
  lemma ScanAdvance(b: string, z: nat)
    requires NoNul(b) && z <= |b|
    ensures z < |b| ==> b[z] != '\0' && b[..z] + [b[z]] == b[..z + 1]
    ensures z == |b| ==> b[..z] == b
  {
  }

  /** The scan of mkversion.c:149-160: accumulate a digit run in `x`, store it in the next
      slot of `vn` at each non-digit while fewer than three are filled, and stop at the
      string's terminating NUL. */
  method ParseVersion(b: string) returns (v: Version)
    requires NoNul(b)
    ensures v == VersionOf(b)
  {
    var vn: seq<nat> := [0, 0, 0];
    var z, x: nat, j: nat := 0, 0, 0;
    ghost var p: string := [];
    while true
      invariant 0 <= z <= |b| && p == b[..z]
      invariant ScanState(p, x, j, vn)
      decreases |b| - z
    {
      ScanAdvance(b, z);
      var c := if z < |b| then b[z] else '\0';
      x, j, vn := ScanChar(p, c, x, j, vn);
      if c == '\0' {
        ScanDone(b, j, vn);
        break;
      }
      p := p + [c];
      z := z + 1;
    }
    v := Version(vn[0], vn[1], vn[2]);
  }

  /** `%02d`: at least two digits, zero-padded on the left. */
  function Pad2(n: nat): (r: string)
    ensures AllDigits(r) && Value(r) == n
    ensures n < 100 ==> |r| == 2
  {
    ValueOfDecimal(n);
    if n < 10 then
      assert "0" + Decimal(n) == ['0'] + Decimal(n);
      ValueZero();
      ValueAppend("0", Decimal(n));
      "0" + Decimal(n)
    else
      Decimal(n)
  }

  /** RELEASE_VERSION_NUMBER, the `%d%02d%02d` of mkversion.c:162. */
  function VersionNumber(v: Version): (r: string)
    ensures AllDigits(r)
  {
    ValueAppend(Decimal(v.major), Pad2(v.minor));
    ValueAppend(Decimal(v.major) + Pad2(v.minor), Pad2(v.patch));
    Decimal(v.major) + Pad2(v.minor) + Pad2(v.patch)
  }

  /** While minor and patch stay below 100 the version number reads back as
      major*10000 + minor*100 + patch. */
  lemma VersionNumberValue(v: Version)
    requires v.minor < 100 && v.patch < 100
    ensures Value(VersionNumber(v)) == v.major * 10000 + v.minor * 100 + v.patch
  {
    var a, b, c := Decimal(v.major), Pad2(v.minor), Pad2(v.patch);
    ValueOfDecimal(v.major);
    ValueAppend(a, b);
    ValueAppend(a + b, c);
    assert Pow10(2) == 100;
  }

  /** From 100 on, a minor number runs into the major one: the format is not injective. */
  lemma VersionNumberCollision()
    ensures VersionNumber(Version(1, 100, 0)) == VersionNumber(Version(11, 0, 0))
  {
    assert Decimal(100) == "100" by { assert Decimal(10) == "10"; }
    assert Decimal(11) == "11";
  }

  /** ",0" written `k` times. */
  function Padding(k: nat): (r: string)
    ensures |r| == 2 * k
  {
    if k == 0 then [] else Padding(k - 1) + ",0"
  }

  lemma {:induction false} CountAppend(a: string, b: string, ch: char)
    ensures Count(a + b, ch) == Count(a, ch) + Count(b, ch)
  {
    if b == [] {
      assert a + b == a;
    } else {
      assert (a + b)[..|a + b| - 1] == a + b[..|b| - 1];
      CountAppend(a, b[..|b| - 1], ch);
    }
  }

  /** Each '.' of `s` written as ','. */
  function Commas(s: string): (r: string)
    ensures |r| == |s|
  {
    if s == [] then []
    else Commas(s[..|s| - 1]) + [if s[|s| - 1] == '.' then ',' else s[|s| - 1]]
  }

  /** The part of `s` the rewrite keeps when `dots` '.' characters have already been passed:
      everything before the first '-' and before a fourth '.'. */
  function Cut(s: string, dots: nat): (r: string)
    requires dots <= 3
    ensures dots + Count(r, '.') <= 3
  {
    if s == [] || s[0] == '-' || (s[0] == '.' && dots == 3) then []
    else
      var d := if s[0] == '.' then dots + 1 else dots;
      var rest := Cut(s[1..], d);
      CountAppend([s[0]], rest, '.');
      assert Count([s[0]], '.') == d - dots by { assert [s[0]][..0] == []; }
      [s[0]] + rest
  }

  /** What Cut keeps: a prefix without '-', ending at the end of the text, at a '-', or at
      the '.' that would be the fourth. */
  lemma {:induction false} CutIsTruncation(s: string, dots: nat)
    requires dots <= 3
    ensures var r := Cut(s, dots);
      && r <= s
      && (forall i :: 0 <= i < |r| ==> r[i] != '-')
      && (|r| == |s| || s[|r|] == '-' || (s[|r|] == '.' && dots + Count(r, '.') == 3))
  {
    if !(s == [] || s[0] == '-' || (s[0] == '.' && dots == 3)) {
      var d := if s[0] == '.' then dots + 1 else dots;
      var rest := Cut(s[1..], d);
      CutIsTruncation(s[1..], d);
      CountAppend([s[0]], rest, '.');
      assert Count([s[0]], '.') == d - dots by { assert [s[0]][..0] == []; }
      var r := Cut(s, dots);
      assert r == [s[0]] + rest;
      assert s == [s[0]] + s[1..];
    }
  }

  /** RELEASE_RESOURCE_VERSION: the kept part with its dots written as commas, then ",0"
      until three separators have been produced. */
  function ResourceVersionOf(s: string): string
  {
    var c := Cut(s, 0);
    Commas(c) + Padding(3 - Count(c, '.'))
  }

  lemma {:induction false} PaddingCount(k: nat)
    ensures Count(Padding(k), ',') == k
    ensures Count(Padding(k), '.') == 0 && Count(Padding(k), '-') == 0
  {
    if k > 0 {
      PaddingCount(k - 1);
      CountAppend(Padding(k - 1), ",0", ',');
      CountAppend(Padding(k - 1), ",0", '.');
      CountAppend(Padding(k - 1), ",0", '-');
      assert ",0"[..1] == "," && ","[..0] == [];
    }
  }

  /** Writing the dots as commas moves each '.' over to ','. */
  lemma {:induction false} CommasCount(s: string)
    ensures Count(Commas(s), ',') == Count(s, ',') + Count(s, '.')
    ensures Count(Commas(s), '.') == 0
    ensures Count(Commas(s), '-') == Count(s, '-')
  {
    if s != [] {
      var s' := s[..|s| - 1];
      CommasCount(s');
      assert Commas([s[|s| - 1]]) == [if s[|s| - 1] == '.' then ',' else s[|s| - 1]];
    }
  }

  lemma {:induction false} CountNone(s: string, ch: char)
    requires forall i :: 0 <= i < |s| ==> s[i] != ch
    ensures Count(s, ch) == 0
  {
    if s != [] {
      CountNone(s[..|s| - 1], ch);
    }
  }

  /** The resource version holds no '.' and no '-', and carries exactly three more ','
      than the kept text had: the replaced dots and the appended ",0" pieces add up to three. */
  lemma ResourceVersionSeparators(s: string)
    ensures Count(ResourceVersionOf(s), '.') == 0
    ensures Count(ResourceVersionOf(s), '-') == 0
    ensures Count(ResourceVersionOf(s), ',') == Count(Cut(s, 0), ',') + 3
  {
    var c := Cut(s, 0);
    var k := 3 - Count(c, '.');
    CutIsTruncation(s, 0);
    CommasCount(c);
    PaddingCount(k);
    CountNone(c, '-');
    CountAppend(Commas(c), Padding(k), ',');
    CountAppend(Commas(c), Padding(k), '.');
    CountAppend(Commas(c), Padding(k), '-');
  }

  /** A version with no '-' and at most three '.' is kept whole. */
  lemma {:induction false} CutKeepsShort(s: string, dots: nat)
    requires dots <= 3 && dots + Count(s, '.') <= 3
    requires forall i :: 0 <= i < |s| ==> s[i] != '-'
    ensures Cut(s, dots) == s
  {
    if s != [] {
      assert s == [s[0]] + s[1..];
      CountAppend([s[0]], s[1..], '.');
      assert Count([s[0]], '.') == (if s[0] == '.' then 1 else 0) by { assert [s[0]][..0] == []; }
      CutKeepsShort(s[1..], if s[0] == '.' then dots + 1 else dots);
    }
  }

  lemma {:induction false} CommasAppend(a: string, b: string)
    ensures Commas(a + b) == Commas(a) + Commas(b)
  {
    if b == [] {
      assert a + b == a;
    } else {
      var b' := b[..|b| - 1];
      assert (a + b)[..|a + b| - 1] == a + b';
      CommasAppend(a, b');
    }
  }

  lemma {:induction false} CommasOfDigits(s: string)
    requires AllDigits(s)
    ensures Commas(s) == s
  {
    if s != [] {
      CommasOfDigits(s[..|s| - 1]);
    }
  }

  /** A release triple `a.b.c` becomes `a,b,c,0`. */
  lemma ResourceVersionOfTriple(da: string, db: string, dc: string)
    requires AllDigits(da) && AllDigits(db) && AllDigits(dc)
    ensures ResourceVersionOf(da + "." + db + "." + dc) == da + "," + db + "," + dc + ",0"
  {
    var s := da + "." + db + "." + dc;
    CountNone(da, '.');
    CountNone(db, '.');
    CountNone(dc, '.');
    CountAppend(da, ".", '.');
    CountAppend(da + ".", db, '.');
    CountAppend(da + "." + db, ".", '.');
    CountAppend(da + "." + db + ".", dc, '.');
    assert Count(".", '.') == 1 by { assert "."[..0] == []; }
    assert Count(s, '.') == 2;
    CutKeepsShort(s, 0);
    CommasOfDigits(da);
    CommasOfDigits(db);
    CommasOfDigits(dc);
    CommasAppend(da, ".");
    CommasAppend(da + ".", db);
    CommasAppend(da + "." + db, ".");
    CommasAppend(da + "." + db + ".", dc);
    assert Commas(".") == "," by { assert "."[..0] == []; }
    assert Padding(1) == ",0";
  }

  lemma ConsSlice(s: string, n: nat)
    requires 0 < n <= |s|
    ensures s[..n] == [s[0]] + s[1..][..n - 1]
  {
    assert forall k :: 0 <= k < n ==> s[..n][k] == ([s[0]] + s[1..][..n - 1])[k];
  }

  /** A prefix of `s` free of '-', within the dot budget, and followed by a stopping point (the
      end, a '-', or the dot that would be one too many) is exactly what Cut keeps. */
  lemma {:induction false} CutUnique(s: string, dots: nat, n: nat)
    requires dots <= 3 && n <= |s| && dots + Count(s[..n], '.') <= 3
    requires forall k :: 0 <= k < n ==> s[k] != '-'
    requires n == |s| || s[n] == '-' || (s[n] == '.' && dots + Count(s[..n], '.') == 3)
    ensures Cut(s, dots) == s[..n]
  {
    if n > 0 {
      var d := if s[0] == '.' then dots + 1 else dots;
      ConsSlice(s, n);
      CountAppend([s[0]], s[1..][..n - 1], '.');
      assert Count([s[0]], '.') == d - dots by { assert [s[0]][..0] == []; }
      CutUnique(s[1..], d, n - 1);
    }
  }

  /** The count of '.' in a growing prefix. */
  lemma CountSnoc(s: string, z: nat, ch: char)
    requires z < |s|
    ensures Count(s[..z + 1], ch) == Count(s[..z], ch) + (if s[z] == ch then 1 else 0)
  {
    assert s[..z + 1][..z] == s[..z];
  }

  /** Commas changes each character on its own: '.' becomes ',' and the rest stay. */
  lemma {:induction false} CommasAt(s: string)
    ensures forall k :: 0 <= k < |s| ==> Commas(s)[k] == if s[k] == '.' then ',' else s[k]
  {
    if s != [] {
      var init := s[..|s| - 1];
      CommasAt(init);
      forall k | 0 <= k < |s| ensures Commas(s)[k] == if s[k] == '.' then ',' else s[k] {
        if k < |init| {
          assert Commas(s)[k] == Commas(init)[k] && init[k] == s[k];
        }
      }
    }
  }

  /** Where the walk stops, the C string in the buffer `buf` is Cut of the text with its dots
      made commas, and `d` counts the dots Cut keeps. */
  lemma WalkStop(b: string, z: nat, d: nat, buf: seq<char>)
    requires z <= |b| && d == Count(b[..z], '.') && d <= 3
    requires forall k :: 0 <= k < z ==> b[k] != '-'
    requires z == |b| || b[z] == '-' || (b[z] == '.' && d == 3)
    requires z <= |buf| && forall k :: 0 <= k < z ==> buf[k] == if b[k] == '.' then ',' else b[k]
    ensures buf[..z] == Commas(Cut(b, 0)) && d == Count(Cut(b, 0), '.')
  {
    CutUnique(b, 0, z);
    CommasAt(b[..z]);
    assert buf[..z] == Commas(b[..z]);
  }

  /** The in-place walk over `vx`, mkversion.c:163-178: a copy of the version in a zeroed
      buffer, each '.' overwritten with ',' until three have been, the string ended at '-' or
      at a fourth '.'. Returns the C string left in the buffer and the count `d`. */
  method RewriteBuffer(b: string) returns (kept: string, d: nat)
    requires NoNul(b)
    ensures kept == Commas(Cut(b, 0)) && d == Count(Cut(b, 0), '.')
  {
    var vx := b + ['\0'];
    var z := 0;
    d := 0;
    assert b[..0] == [];
    while true
      invariant z <= |b| && d == Count(b[..z], '.') && d <= 3
      invariant forall k :: 0 <= k < z ==> b[k] != '-'
      invariant |vx| == |b| + 1 && vx[|b|] == '\0'
      invariant forall k :: z <= k < |b| ==> vx[k] == b[k]
      invariant forall k :: 0 <= k < z ==> vx[k] == if b[k] == '.' then ',' else b[k]
      decreases |b| - z
    {
      if vx[z] == '\0' {
        WalkStop(b, z, d, vx);
        break;
      }
      assert z < |b| && vx[z] == b[z];
      CountSnoc(b, z, '.');
      if vx[z] == '-' {
        vx := vx[z := '\0'];
        WalkStop(b, z, d, vx);
        break;
      }
      if vx[z] == '.' {
        if d < 3 {
          vx := vx[z := ','];
          d := d + 1;
        } else {
          vx := vx[z := '\0'];
          WalkStop(b, z, d, vx);
          break;
        }
      }
      z := z + 1;
    }
    // The C string left in the buffer ends at the NUL at index z.
    kept := vx[..z];
  }

  /** RELEASE_RESOURCE_VERSION as mkversion.c:163-181 prints it: the rewritten buffer, then
      ",0" while fewer than three separators were written. */
  method ResourceVersion(b: string) returns (r: string)
    requires NoNul(b)
    ensures r == ResourceVersionOf(b)
  {
    var d: nat;
    r, d := RewriteBuffer(b);
    ghost var base, d0 := r, d;
    while d < 3
      invariant d0 <= d <= 3
      invariant r == base + Padding(d - d0)
    {
      assert Padding(d + 1 - d0) == Padding(d - d0) + ",0";
      r := r + ",0";
      d := d + 1;
    }
    assert d - d0 == 3 - Count(Cut(b, 0), '.');
  }
}
