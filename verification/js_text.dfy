/** The JavaScript string operations fiddle.js relies on: `String.prototype.trim` and
    `String.prototype.split` with a one-character separator. */
module JsText {
  import opened CText

  /** The characters `trim` removes: ECMAScript WhiteSpace (tab, vertical tab, form feed,
      space, no-break space, the byte order mark and the Zs space separators) and
      LineTerminator (LF, CR, line separator, paragraph separator). */
  predicate IsJsSpace(c: char)
  {
    || c == '\t' || c == '\n' || c == '\U{000B}' || c == '\U{000C}' || c == '\r' || c == ' '
    || c == '\U{00A0}' || c == '\U{1680}' || ('\U{2000}' <= c <= '\U{200A}')
    || c == '\U{2028}' || c == '\U{2029}' || c == '\U{202F}' || c == '\U{205F}'
    || c == '\U{3000}' || c == '\U{FEFF}'
  }

  predicate AllSpace(s: string) { forall i :: 0 <= i < |s| ==> IsJsSpace(s[i]) }

  /** The length of the run of white space that begins `s`. */
  function Lead(s: string): (k: nat)
    ensures k <= |s| && (k < |s| ==> !IsJsSpace(s[k]))
  {
    if s != [] && IsJsSpace(s[0]) then 1 + Lead(s[1..]) else 0
  }

  /** The length of the run of white space that ends `s`. */
  function Trail(s: string): (k: nat)
    ensures k <= |s| && (k < |s| ==> !IsJsSpace(s[|s| - 1 - k]))
  {
    if s != [] && IsJsSpace(s[|s| - 1]) then 1 + Trail(s[..|s| - 1]) else 0
  }

  /** The leading run is all white space. */
  lemma {:induction false} LeadIsSpace(s: string)
    ensures AllSpace(s[..Lead(s)])
  {
    if s != [] && IsJsSpace(s[0]) {
      LeadIsSpace(s[1..]);
      forall i | 0 <= i < Lead(s) ensures IsJsSpace(s[i]) {
        if i > 0 {
          assert s[i] == s[1..][..Lead(s[1..])][i - 1];
        }
      }
    }
  }

  /** The trailing run is all white space. */
  lemma {:induction false} TrailIsSpace(s: string)
    ensures AllSpace(s[|s| - Trail(s)..])
  {
    if s != [] && IsJsSpace(s[|s| - 1]) {
      var init := s[..|s| - 1];
      TrailIsSpace(init);
      forall i | |s| - Trail(s) <= i < |s| ensures IsJsSpace(s[i]) {
        if i < |s| - 1 {
          assert s[i] == init[|init| - Trail(init)..][i - (|init| - Trail(init))];
        }
      }
    }
  }

  /** `trim()`: the text between the leading and the trailing white space. */
  function Trim(s: string): (r: string)
    ensures |r| <= |s|
    ensures r == [] || (!IsJsSpace(r[0]) && !IsJsSpace(r[|r| - 1]))
  {
    var t := s[Lead(s)..];
    t[..|t| - Trail(t)]
  }

  /** Where the text `trim` keeps starts: after the leading white space. */
  function TrimOffset(s: string): (o: nat)
    ensures o <= |s|
  {
    Lead(s)
  }

  /** What `trim` keeps is one contiguous piece of its input. */
  lemma TrimIsPiece(s: string)
    ensures TrimOffset(s) + |Trim(s)| <= |s|
    ensures Trim(s) == s[TrimOffset(s)..TrimOffset(s) + |Trim(s)|]
  {
    var o := Lead(s);
    var t := s[o..];
    SliceOfSuffix(s, o, |t| - Trail(t));
  }

  lemma SliceOfSuffix(s: string, o: nat, n: nat)
    requires o + n <= |s|
    ensures s[o..][..n] == s[o..o + n]
  {
  }

  /** The white space before and after that piece is all that `trim` drops. */
  lemma TrimDropsSpace(s: string)
    ensures TrimOffset(s) + |Trim(s)| <= |s|
    ensures AllSpace(s[..TrimOffset(s)]) && AllSpace(s[TrimOffset(s) + |Trim(s)|..])
  {
    var o := Lead(s);
    var t := s[o..];
    var n := |t| - Trail(t);
    assert |Trim(s)| == n;
    LeadIsSpace(s);
    TrailIsSpace(t);
    SuffixOfSuffix(s, o, n);
  }

  lemma SuffixOfSuffix(s: string, o: nat, n: nat)
    requires o + n <= |s|
    ensures s[o..][n..] == s[o + n..]
  {
  }

  /** `t` occurs in `s` at offset `o`. */
  ghost predicate PieceAt(s: string, o: nat, t: string)
  {
    o + |t| <= |s| && t == s[o..o + |t|]
  }

  /** Trimming a slice keeps a piece of the whole text lying inside the slice. */
  lemma TrimOfSlice(s: string, a: nat, b: nat)
    requires a <= b <= |s|
    ensures a + TrimOffset(s[a..b]) + |Trim(s[a..b])| <= b
    ensures PieceAt(s, a + TrimOffset(s[a..b]), Trim(s[a..b]))
  {
    var sel := s[a..b];
    TrimIsPiece(sel);
    PieceOfSlice(s, a, b, TrimOffset(sel), Trim(sel));
  }

  /** A piece of the slice `s[a..b]` is a piece of `s`, shifted by `a`. */
  lemma PieceOfSlice(s: string, a: nat, b: nat, o: nat, t: string)
    requires a <= b <= |s| && PieceAt(s[a..b], o, t)
    ensures a + o + |t| <= b && PieceAt(s, a + o, t)
  {
    assert forall k :: 0 <= k < |t| ==> t[k] == s[a + o + k];
  }

  /** A text whose first character is not white space has no leading run. */
  lemma {:induction false} LeadAllSpace(s: string)
    ensures Lead(s) == |s| <==> AllSpace(s)
  {
    LeadIsSpace(s);
    if Lead(s) == |s| {
      assert s[..Lead(s)] == s;
    }
  }

  /** Trimming leaves nothing exactly when the text is all white space. */
  lemma TrimEmpty(s: string)
    ensures Trim(s) == [] <==> AllSpace(s)
  {
    LeadAllSpace(s);
    var t := s[Lead(s)..];
    TrailIsSpace(t);
    assert t[0..] == t;
    assert t != [] ==> t[0] == s[Lead(s)];
  }

  /** Text already free of white space at both ends is left as it is. */
  lemma TrimKeeps(s: string)
    requires s == [] || (!IsJsSpace(s[0]) && !IsJsSpace(s[|s| - 1]))
    ensures Trim(s) == s
  {
  }

  /** `s.split(sep)` for a one-character separator: the pieces between separators, an empty
      piece wherever two separators meet or one ends the text. */
  function Split(s: string, sep: char): (parts: seq<string>)
    ensures |parts| >= 1
  {
    if s == [] then [[]]
    else
      var init := Split(s[..|s| - 1], sep);
      if s[|s| - 1] == sep then init + [[]]
      else init[..|init| - 1] + [init[|init| - 1] + [s[|s| - 1]]]
  }

  /** `parts.join(sep)`. */
  function Join(parts: seq<string>, sep: char): string
    requires |parts| >= 1
  {
    if |parts| == 1 then parts[0] else Join(parts[..|parts| - 1], sep) + [sep] + parts[|parts| - 1]
  }

  /** There is one more piece than there are separators. */
  lemma {:induction false} SplitCount(s: string, sep: char)
    ensures |Split(s, sep)| == Count(s, sep) + 1
  {
    if s != [] {
      SplitCount(s[..|s| - 1], sep);
    }
  }

  /** No piece holds the separator. */
  lemma {:induction false} SplitPiecesFree(s: string, sep: char)
    ensures forall k, i :: 0 <= k < |Split(s, sep)| && 0 <= i < |Split(s, sep)[k]| ==>
      Split(s, sep)[k][i] != sep
  {
    if s != [] {
      var s' := s[..|s| - 1];
      SplitPiecesFree(s', sep);
      var init := Split(s', sep);
      var p := Split(s, sep);
      if s[|s| - 1] != sep {
        forall k, i | 0 <= k < |p| && 0 <= i < |p[k]| ensures p[k][i] != sep {
          if k < |init| - 1 {
            assert p[k] == init[k];
          } else if i < |init[k]| {
            assert p[k][i] == init[k][i];
          }
        }
      }
    }
  }

  lemma JoinSnoc(parts: seq<string>, sep: char, x: string)
    requires |parts| >= 1
    ensures Join(parts + [x], sep) == Join(parts, sep) + [sep] + x
  {
    assert (parts + [x])[..|parts|] == parts;
  }

  /** One more character on the last piece is one more character at the end of the text. */
  lemma JoinExtendLast(parts: seq<string>, sep: char, c: char)
    requires |parts| >= 1
    ensures Join(parts[..|parts| - 1] + [parts[|parts| - 1] + [c]], sep) == Join(parts, sep) + [c]
  {
    var front, last := parts[..|parts| - 1], parts[|parts| - 1];
    if |parts| > 1 {
      JoinSnoc(front, sep, last + [c]);
      JoinSnoc(front, sep, last);
      assert front + [last] == parts;
    }
  }

  /** Joining the pieces with the separator gives the text back. */
  lemma {:induction false} SplitJoin(s: string, sep: char)
    ensures Join(Split(s, sep), sep) == s
  {
    if s != [] {
      var s', c := s[..|s| - 1], s[|s| - 1];
      SplitJoin(s', sep);
      var init := Split(s', sep);
      if c == sep {
        JoinSnoc(init, sep, []);
      } else {
        JoinExtendLast(init, sep, c);
      }
      assert s == s' + [c];
    }
  }
}
