/** The `hash` routine of mkversion.c:58-82: an RC4-like key schedule over a 256-entry
    permutation, keyed by a C string whose terminating NUL takes part in the cycle, followed
    by a keystream whose bytes are written out as lower-case hexadecimal. */
module KeyHash {

  /** An `unsigned char` value. */
  type Byte = x: int | 0 <= x < 256

  /** The bytes of a C string, terminating NUL included: exactly one zero, at the end. */
  predicate CString(z: seq<Byte>)
  {
    |z| >= 1 && z[|z| - 1] == 0 && forall k :: 0 <= k < |z| - 1 ==> z[k] != 0
  }

  /** The state array as the first loop leaves it: entry m holds m. */
  function Identity(): (s: seq<int>)
    ensures |s| == 256
  {
    seq(256, m => m)
  }

  /** A reordering of 0..255. */
  ghost predicate IsPermutation(s: seq<int>)
  {
    |s| == 256 && multiset(s) == multiset(Identity())
  }

  /** Entry `a` takes the value of entry `b`, then `b` takes the old value of `a`. */
  function Swap(s: seq<int>, a: int, b: int): (r: seq<int>)
    requires 0 <= a < |s| && 0 <= b < |s|
    ensures |r| == |s|
  {
    s[a := s[b]][b := s[a]]
  }

  /** The entries at `a` and `b` trade places and every other entry stays put. */
  lemma SwapExchanges(s: seq<int>, a: int, b: int)
    requires 0 <= a < |s| && 0 <= b < |s|
    ensures Swap(s, a, b)[a] == s[b] && Swap(s, a, b)[b] == s[a]
    ensures forall k :: 0 <= k < |s| && k != a && k != b ==> Swap(s, a, b)[k] == s[k]
  {
  }

  /** Swapping two entries keeps the same values. */
  lemma SwapPermutes(s: seq<int>, a: int, b: int)
    requires 0 <= a < |s| && 0 <= b < |s|
    ensures multiset(Swap(s, a, b)) == multiset(s)
  {
    if a != b {
      var t := s[a := s[b]];
      assert multiset(t) == multiset(s) - multiset{s[a]} + multiset{s[b]};
    }
  }

  /** The key schedule's state: the array and the running index `j`. */
  datatype Schedule = Schedule(s: seq<int>, j: Byte)

  /** Round `m` of the key schedule with key byte `c`: add the entry `s[m]` and `c` to `j`,
      then swap entries `j` and `m`. */
  function ScheduleRound(st: Schedule, c: Byte, m: nat): (st': Schedule)
    requires |st.s| == 256 && m < 256
    ensures |st'.s| == 256
  {
    var j := (st.j + st.s[m] + c) % 256;
    Schedule(Swap(st.s, j, m), j)
  }

  /** The key schedule after its first `m` rounds: round `m` uses the key byte at position
      `m mod |z|`. */
  function KeySchedule(z: seq<Byte>, m: nat): (st: Schedule)
    requires |z| >= 1 && m <= 256
    ensures |st.s| == 256
  {
    if m == 0 then Schedule(Identity(), 0)
    else ScheduleRound(KeySchedule(z, m - 1), z[(m - 1) % |z|], m - 1)
  }

  /** Every round of the key schedule keeps the state a permutation of 0..255. */
  lemma {:induction false} KeySchedulePermutes(z: seq<Byte>, m: nat)
    requires |z| >= 1 && m <= 256
    ensures IsPermutation(KeySchedule(z, m).s)
  {
    if m > 0 {
      KeySchedulePermutes(z, m - 1);
      var prev := KeySchedule(z, m - 1);
      SwapPermutes(prev.s, (prev.j + prev.s[m - 1] + z[(m - 1) % |z|]) % 256, m - 1);
    }
  }

  /** The keystream's state: the array and the indices `i` and `j`. */
  datatype Prga = Prga(s: seq<int>, i: Byte, j: Byte)

  /** One keystream round: advance `i`, add `s[i]` to `j`, swap entries `i` and `j`, and
      produce the sum of the old `s[i]` and the new `s[i]`, modulo 256. */
  function Round(p: Prga): (r: (Prga, Byte))
    requires |p.s| == 256
    ensures |r.0.s| == 256
  {
    var i := (p.i + 1) % 256;
    var t := p.s[i];
    var j := (p.j + t) % 256;
    var s := Swap(p.s, i, j);
    (Prga(s, i, j), (t + s[i]) % 256)
  }

  /** The state and the bytes produced after `k` rounds from the permutation `s0`. */
  datatype Stream = Stream(state: Prga, out: seq<Byte>)

  function Keystream(s0: seq<int>, k: nat): (st: Stream)
    requires |s0| == 256
    ensures |st.state.s| == 256 && |st.out| == k
  {
    if k == 0 then Stream(Prga(s0, 0, 0), [])
    else
      var prev := Keystream(s0, k - 1);
      var r := Round(prev.state);
      Stream(r.0, prev.out + [r.1])
  }

  lemma KeystreamNext(s0: seq<int>, k: nat, p: Prga, out: seq<Byte>)
    requires |s0| == 256 && Keystream(s0, k) == Stream(p, out)
    ensures Keystream(s0, k + 1) == Stream(Round(p).0, out + [Round(p).1])
  {
  }

  /** The keystream only ever swaps: the state stays a permutation. */
  lemma {:induction false} KeystreamPermutes(s0: seq<int>, k: nat)
    requires IsPermutation(s0)
    ensures IsPermutation(Keystream(s0, k).state.s)
  {
    if k > 0 {
      KeystreamPermutes(s0, k - 1);
      var p := Keystream(s0, k - 1).state;
      var i := (p.i + 1) % 256;
      SwapPermutes(p.s, i, (p.j + p.s[i]) % 256);
    }
  }

  /** A permutation of 0..255 holds only `unsigned char` values. */
  lemma PermutationBytes(s: seq<int>)
    requires IsPermutation(s)
    ensures forall k :: 0 <= k < 256 ==> 0 <= s[k] < 256
  {
    forall k | 0 <= k < 256 ensures 0 <= s[k] < 256 {
      assert s[k] in multiset(Identity());
    }
  }

  /** The number of output rounds for an output size `N`: one per two characters while the
      character index stays below `N-2`. */
  function Rounds(N: int): (k: nat)
  {
    if N <= 2 then 0 else (N - 1) / 2
  }

  /** The output loop runs once more exactly while twice the rounds done stays below N-2. */
  lemma RoundsBound(N: int, k: nat)
    ensures 2 * k < N - 2 <==> k < Rounds(N)
  {
  }

  /** Rounds writes two characters per round, ending at N-2 when N is even and at N-1 when
      N is odd. */
  lemma RoundsLength(N: int)
    requires N >= 2
    ensures 2 * Rounds(N) == (if N % 2 == 0 then N - 2 else N - 1)
  {
  }

  const HexDigits: string := "0123456789abcdef"

  predicate IsHexDigit(c: char) { c in HexDigits }

  /** A byte as two lower-case hexadecimal characters, high nibble first. */
  function HexByte(t: Byte): (r: string)
    ensures |r| == 2 && IsHexDigit(r[0]) && IsHexDigit(r[1])
  {
    [HexDigits[t / 16], HexDigits[t % 16]]
  }

  /** The value of a lower-case hexadecimal digit. */
  function HexValue(c: char): nat
  {
    if '0' <= c <= '9' then c as int - '0' as int
    else if 'a' <= c <= 'f' then c as int - 'a' as int + 10
    else 0
  }

  lemma HexDigitValue(d: int)
    requires 0 <= d < 16
    ensures HexValue(HexDigits[d]) == d
  {
    if d < 8 {
      if d < 4 { } else { }
    } else {
      if d < 12 { } else { }
    }
  }

  /** The two characters read back as the byte they encode. */
  lemma HexByteRoundTrip(t: Byte)
    ensures HexValue(HexByte(t)[0]) * 16 + HexValue(HexByte(t)[1]) == t
  {
    HexDigitValue(t / 16);
    HexDigitValue(t % 16);
  }

  /** The bytes `out`, two hexadecimal characters each. */
  function Hex(out: seq<Byte>): (r: string)
    ensures |r| == 2 * |out|
  {
    if out == [] then [] else Hex(out[..|out| - 1]) + HexByte(out[|out| - 1])
  }

  lemma HexSnoc(out: seq<Byte>, u: Byte)
    ensures Hex(out + [u]) == Hex(out) + HexByte(u)
  {
    assert (out + [u])[..|out|] == out;
  }

  /** Hex writes nothing but hexadecimal digits. */
  lemma {:induction false} HexIsHex(out: seq<Byte>)
    ensures forall k :: 0 <= k < |Hex(out)| ==> IsHexDigit(Hex(out)[k])
  {
    if out != [] {
      HexIsHex(out[..|out| - 1]);
      var p, h := Hex(out[..|out| - 1]), HexByte(out[|out| - 1]);
      forall k | 0 <= k < |p + h| ensures IsHexDigit((p + h)[k]) {
        if k < |p| { assert (p + h)[k] == p[k]; } else { assert (p + h)[k] == h[k - |p|]; }
      }
    }
  }

  /** The text `hash` writes before its terminating NUL. */
  function HashText(z: seq<Byte>, N: int): (r: string)
    requires |z| >= 1
    ensures |r| == 2 * Rounds(N)
  {
    Hex(Keystream(KeySchedule(z, 256).s, Rounds(N)).out)
  }

  /** The hash text holds 2*Rounds(N) hexadecimal characters, N-2 of them when N is even. */
  lemma HashTextShape(z: seq<Byte>, N: int)
    requires |z| >= 1
    ensures |HashText(z, N)| == 2 * Rounds(N)
    ensures N >= 2 && N % 2 == 0 ==> |HashText(z, N)| == N - 2
    ensures forall k :: 0 <= k < |HashText(z, N)| ==> IsHexDigit(HashText(z, N)[k])
  {
    HexIsHex(Keystream(KeySchedule(z, 256).s, Rounds(N)).out);
    if N >= 2 { RoundsLength(N); }
  }

  /** The state array is a permutation of 0..255 after every round of both phases. */
  lemma HashStatePermutes(z: seq<Byte>, m: nat, k: nat)
    requires |z| >= 1 && m <= 256
    ensures IsPermutation(KeySchedule(z, m).s)
    ensures IsPermutation(Keystream(KeySchedule(z, 256).s, k).state.s)
  {
    KeySchedulePermutes(z, m);
    KeySchedulePermutes(z, 256);
    KeystreamPermutes(KeySchedule(z, 256).s, k);
  }

  lemma MulAtLeast(e: int, L: int)
    requires e >= 1 && L >= 1
    ensures e * L >= L
  {
  }

  /** Euclidean division leaves one remainder. */
  lemma ModUnique(a: int, L: int, q: int, r: int)
    requires L >= 1 && 0 <= r < L && a == q * L + r
    ensures a % L == r
  {
    var q', r' := a / L, a % L;
    var e := q' - q;
    assert e * L == q' * L - q * L;
    assert e * L == r - r';
    if e >= 1 {
      MulAtLeast(e, L);
    } else if e <= -1 {
      MulAtLeast(-e, L);
    }
  }

  /** Counting modulo L: one more step moves on by one, or wraps to 0 from L-1. */
  lemma ModNext(m: nat, L: nat)
    requires L >= 1
    ensures (m + 1) % L == if m % L == L - 1 then 0 else m % L + 1
  {
    var q, r := m / L, m % L;
    assert m == q * L + r;
    if r == L - 1 {
      assert m + 1 == (q + 1) * L + 0;
      ModUnique(m + 1, L, q + 1, 0);
    } else {
      ModUnique(m + 1, L, q, r + 1);
    }
  }

  /** After `m` rounds, the key index `n` that cycles through the string and back to 0 after
      the NUL has moved on to `m mod |z|`. */
  lemma KeyIndexStep(z: seq<Byte>, m: nat, n: int)
    requires CString(z) && n == m % |z|
    ensures z[n] == 0 ==> (m + 1) % |z| == 0
    ensures z[n] != 0 ==> (m + 1) % |z| == n + 1
  {
    ModNext(m, |z|);
  }

  /** The first loop of mkversion.c:62: a state array holding 0..255 in order. */
  method NewIdentity() returns (s: array<int>)
    ensures fresh(s) && s[..] == Identity()
  {
    s := new int[256];
    var m := 0;
    while m < 256
      invariant 0 <= m <= 256
      invariant s[..m] == Identity()[..m]
    {
      s[m] := m;
      m := m + 1;
    }
    assert s[..] == s[..256];
  }

  /** Exchanges entries `a` and `b` of the state array through a temporary, as both loops of
      mkversion.c:58-82 do. */
  method SwapEntries(s: array<int>, a: Byte, b: Byte)
    requires s.Length == 256
    modifies s
    ensures s[..] == Swap(old(s[..]), a, b)
  {
    var t := s[a];
    s[a] := s[b];
    s[b] := t;
  }

  /** The key schedule loop of mkversion.c:63-69: the key index goes back to 0 after the
      string's NUL. */
  method ScheduleKey(s: array<int>, zIn: seq<Byte>)
    requires CString(zIn) && s[..] == Identity()
    modifies s
    ensures s[..] == KeySchedule(zIn, 256).s
  {
    var j: Byte, n, m := 0, 0, 0;
    while m < 256
      invariant 0 <= m <= 256 && n == m % |zIn|
      invariant Schedule(s[..], j) == KeySchedule(zIn, m)
    {
      KeyIndexStep(zIn, m, n);
      ghost var next := ScheduleRound(Schedule(s[..], j), zIn[n], m);
      j := (j + s[m] + zIn[n]) % 256;
      if zIn[n] == 0 {
        n := -1;
      }
      SwapEntries(s, j, m);
      assert Schedule(s[..], j) == next;
      m, n := m + 1, n + 1;
    }
  }

  /** The output buffer `a` once the bytes `out` have been written: their hexadecimal text at
      the front, and the original contents `orig` past index `limit`. */
  ghost predicate Written(a: seq<char>, out: seq<Byte>, orig: seq<char>, limit: nat)
  {
    |a| == |orig| && 2 * |out| <= |a| && limit <= |a| && a[..2 * |out|] == Hex(out) && a[limit..] == orig[limit..]
  }

  lemma WriteStep(a: seq<char>, out: seq<Byte>, orig: seq<char>, limit: nat, u: Byte)
    requires Written(a, out, orig, limit) && 2 * |out| + 2 <= limit <= |a|
    ensures Written(a[2 * |out| := HexByte(u)[0]][2 * |out| + 1 := HexByte(u)[1]], out + [u], orig, limit)
  {
    var n := 2 * |out|;
    var b := a[n := HexByte(u)[0]][n + 1 := HexByte(u)[1]];
    HexSnoc(out, u);
    assert b[..n + 2] == a[..n] + HexByte(u);
    assert b[limit..] == a[limit..];
  }

  lemma WriteNul(a: seq<char>, out: seq<Byte>, orig: seq<char>, limit: nat)
    requires Written(a, out, orig, limit) && limit == 2 * |out| + 1
    ensures a[2 * |out| := '\0'][..2 * |out|] == Hex(out)
    ensures a[2 * |out| := '\0'][limit..] == orig[limit..]
  {
    var n := 2 * |out|;
    assert a[n := '\0'][..n] == a[..n];
    assert a[n := '\0'][limit..] == a[limit..];
  }

  /** The body of the output loop of mkversion.c:72-77 on the state array. */
  method StreamRound(s: array<int>, i: Byte, j: Byte) returns (i': Byte, j': Byte, u: Byte)
    requires s.Length == 256
    modifies s
    ensures Round(Prga(old(s[..]), i, j)) == (Prga(s[..], i', j'), u)
  {
    i' := (i + 1) % 256;
    var t := s[i'];
    j' := (j + t) % 256;
    SwapEntries(s, i', j');
    u := (t + s[i']) % 256;
  }

  /** The two `zOut` stores of mkversion.c:78-79: the high nibble's digit, then the low one's. */
  method WriteHexByte(zOut: array<char>, n: nat, u: Byte)
    requires n + 1 < zOut.Length
    modifies zOut
    ensures zOut[..] == old(zOut[..])[n := HexByte(u)[0]][n + 1 := HexByte(u)[1]]
  {
    zOut[n] := HexDigits[u / 16];
    zOut[n + 1] := HexDigits[u % 16];
  }

  /** The output loop's state after the bytes `out`: the array and indices are the keystream
      state after |out| rounds from `s0`, and the buffer holds what those rounds wrote. */
  ghost predicate Emitting(s0: seq<int>, st: Prga, a: seq<char>, out: seq<Byte>, orig: seq<char>, limit: nat)
  {
    |s0| == 256 && Keystream(s0, |out|) == Stream(st, out) && Written(a, out, orig, limit)
  }

  /** One pass of the output loop, mkversion.c:72-79: a keystream round, then its byte as two
      hexadecimal characters at `n`. */
  method EmitStep(s: array<int>, zOut: array<char>, i: Byte, j: Byte, n: nat,
                  ghost s0: seq<int>, ghost out: seq<Byte>, ghost orig: seq<char>, ghost limit: nat)
    returns (i': Byte, j': Byte, u: Byte)
    requires s.Length == 256 && n == 2 * |out| && n + 2 <= limit
    requires Emitting(s0, Prga(s[..], i, j), zOut[..], out, orig, limit)
    modifies s, zOut
    ensures Emitting(s0, Prga(s[..], i', j'), zOut[..], out + [u], orig, limit)
  {
    ghost var p, a := Prga(s[..], i, j), zOut[..];
    i', j', u := StreamRound(s, i, j);
    KeystreamNext(s0, |out|, p, out);
    WriteHexByte(zOut, n, u);
    WriteStep(a, out, orig, limit, u);
  }

  /** The output loop of mkversion.c:70-81 over the scheduled state `s`: two hexadecimal
      characters per keystream byte while the character index stays below N-2, then a NUL;
      nothing past the NUL changes, and the state array is left as the keystream leaves it. */
  method Emit(s: array<int>, N: int, zOut: array<char>)
    requires s.Length == 256 && 2 * Rounds(N) < zOut.Length
    modifies s, zOut
    ensures zOut[..2 * Rounds(N)] == Hex(Keystream(old(s[..]), Rounds(N)).out)
    ensures zOut[2 * Rounds(N)] == '\0'
    ensures zOut[2 * Rounds(N) + 1..] == old(zOut[2 * Rounds(N) + 1..])
    ensures s[..] == Keystream(old(s[..]), Rounds(N)).state.s
  {
    ghost var s0, orig, limit := s[..], zOut[..], 2 * Rounds(N) + 1;
    var i: Byte, j: Byte, n := 0, 0, 0;
    ghost var out := [];
    while n < N - 2
      invariant |out| <= Rounds(N) && n == 2 * |out|
      invariant Emitting(s0, Prga(s[..], i, j), zOut[..], out, orig, limit)
    {
      RoundsBound(N, |out|);
      var u;
      i, j, u := EmitStep(s, zOut, i, j, n, s0, out, orig, limit);
      n, out := n + 2, out + [u];
    }
    RoundsBound(N, |out|);
    WriteNul(zOut[..], out, orig, limit);
    zOut[n] := '\0';
  }

  /** mkversion.c:58-82: fill the state, run the key schedule, then write the hexadecimal
      keystream and its NUL into `zOut`. */
  method Hash(zIn: seq<Byte>, N: int, zOut: array<char>)
    requires CString(zIn)
    requires 2 * Rounds(N) < zOut.Length
    modifies zOut
    ensures zOut[..2 * Rounds(N)] == HashText(zIn, N)
    ensures zOut[2 * Rounds(N)] == '\0'
    ensures zOut[2 * Rounds(N) + 1..] == old(zOut[2 * Rounds(N) + 1..])
  {
    var s := NewIdentity();
    ScheduleKey(s, zIn);
    Emit(s, N, zOut);
  }
}
