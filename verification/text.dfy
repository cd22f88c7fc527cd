/**
 The engine string primitives the header parser relies on, each given a small
 specification of its own: whitespace and line splitting (with empty pieces
 culled), first-occurrence search, prefix tests with and without case
 folding, trimming, and the
 separator join the converter uses to build its header text.
 */
module Text {
  import opened Results

  /** Blank characters for the whitespace split and for trimming: space, tab and the two line breaks. */
  predicate IsSpace(c: char) {
    c == ' ' || c == '\t' || c == '\r' || c == '\n'
  }

  /**
   Line terminators for the engine's line split. A "\r\n" pair is two of them
   with an empty line in between, and empty lines are culled, so it acts as one.
   */
  predicate IsLineBreak(c: char) {
    c == '\r' || c == '\n'
  }

  /**
   Exact, case-sensitive prefix test. The engine's `StartsWith` folds ASCII
   case by default (see StartsWithIgnoringCase); the parser applies this one
   only to the prefix `#`, which has no case, so the two agree there.
   */
  predicate StartsWith(s: string, prefix: string) {
    |prefix| <= |s| && s[..|prefix|] == prefix
  }

  /** The engine's case folding of one character: ASCII upper-case letters become lower-case. */
  function ToLowerAscii(c: char): char {
    if 'A' <= c <= 'Z' then (c as int + 32) as char else c
  }

  /** s with every ASCII letter in lower case. */
  function LowerAscii(s: string): (r: string)
    ensures |r| == |s|
    ensures forall i :: 0 <= i < |s| ==> r[i] == ToLowerAscii(s[i])
  {
    seq(|s|, i requires 0 <= i < |s| => ToLowerAscii(s[i]))
  }

  /**
   The engine's default prefix test: s begins with prefix when ASCII letters
   are compared without regard to case.
   */
  predicate StartsWithIgnoringCase(s: string, prefix: string) {
    |prefix| <= |s| && forall i :: 0 <= i < |prefix| ==> ToLowerAscii(s[i]) == ToLowerAscii(prefix[i])
  }

  /**
   Ignoring case is the exact test on lower-cased texts, and every exact
   prefix is also a prefix ignoring case.
   */
  lemma IgnoringCaseIsLowerPrefix(s: string, prefix: string)
    ensures StartsWithIgnoringCase(s, prefix) <==> StartsWith(LowerAscii(s), LowerAscii(prefix))
    ensures StartsWith(s, prefix) ==> StartsWithIgnoringCase(s, prefix)
  {
    if StartsWith(LowerAscii(s), LowerAscii(prefix)) {
      forall i | 0 <= i < |prefix|
        ensures ToLowerAscii(s[i]) == ToLowerAscii(prefix[i])
      {
        assert LowerAscii(s)[..|prefix|][i] == LowerAscii(prefix)[i];
      }
    }
    if StartsWithIgnoringCase(s, prefix) {
      assert LowerAscii(s)[..|prefix|] == LowerAscii(prefix);
    }
    if StartsWith(s, prefix) {
      forall i | 0 <= i < |prefix|
        ensures s[i] == prefix[i]
      {
        assert s[..|prefix|][i] == prefix[i];
      }
    }
  }

  /** No character of s is a separator. */
  predicate Free(s: string, isSep: char -> bool) {
    forall i :: 0 <= i < |s| ==> !isSep(s[i])
  }

  /** s is non-empty and holds no separator: a piece a split can return. */
  predicate IsPiece(s: string, isSep: char -> bool) {
    |s| > 0 && Free(s, isSep)
  }

  lemma FreeConcat(a: string, b: string, isSep: char -> bool)
    requires Free(a, isSep) && Free(b, isSep)
    ensures Free(a + b, isSep)
  {
    assert forall i :: |a| <= i < |a + b| ==> (a + b)[i] == b[i - |a|];
  }

  /** Neither end of s is blank. */
  predicate IsTrimmed(s: string) {
    |s| == 0 || (!IsSpace(s[0]) && !IsSpace(s[|s| - 1]))
  }

  // ---------------------------------------------------------------------------
  // First-occurrence search
  // ---------------------------------------------------------------------------

  /** Index of the first c in s, if any. */
  function FindFirst(s: string, c: char): (r: Option<nat>)
    ensures r.None? <==> c !in s
    ensures r.Some? ==> r.value < |s| && s[r.value] == c && c !in s[..r.value]
  {
    if |s| == 0 then None
    else if s[0] == c then Some(0)
    else
      match FindFirst(s[1..], c)
      case None => None
      case Some(i) =>
        assert s[..i + 1] == [s[0]] + s[1..][..i];
        Some(i + 1)
  }

  // ---------------------------------------------------------------------------
  // Trimming
  // ---------------------------------------------------------------------------

  /** s without its leading blanks. */
  function TrimStart(s: string): (r: string)
    ensures |r| <= |s| && r == s[|s| - |r|..]
    ensures forall i :: 0 <= i < |s| - |r| ==> IsSpace(s[i])
    ensures |r| > 0 ==> !IsSpace(r[0])
  {
    if |s| > 0 && IsSpace(s[0]) then TrimStart(s[1..]) else s
  }

  /** s without its trailing blanks. */
  function TrimEnd(s: string): (r: string)
    ensures |r| <= |s| && r == s[..|r|]
    ensures forall i :: |r| <= i < |s| ==> IsSpace(s[i])
    ensures |r| > 0 ==> !IsSpace(r[|r| - 1])
  {
    if |s| > 0 && IsSpace(s[|s| - 1]) then TrimEnd(s[..|s| - 1]) else s
  }

  /** s without leading and trailing blanks. */
  function Trim(s: string): (r: string)
    ensures IsTrimmed(r)
  {
    TrimEnd(TrimStart(s))
  }

  /** Every character of s is blank. */
  predicate AllSpace(s: string) {
    forall i :: 0 <= i < |s| ==> IsSpace(s[i])
  }

  /** Trimming removes blanks only: padding a trimmed string with blanks and trimming gives it back. */
  lemma TrimPadded(pre: string, s: string, post: string)
    requires AllSpace(pre) && AllSpace(post)
    requires IsTrimmed(s)
    ensures Trim(pre + s + post) == s
  {
    if |s| == 0 {
      assert pre + s + post == pre + post;
      assert AllSpace(pre + post);
      TrimStartBlank(pre + post);
    } else {
      assert pre + s + post == pre + (s + post);
      TrimStartPadded(pre, s + post);
      TrimEndPadded(s, post);
    }
  }

  lemma {:induction false} TrimStartBlank(s: string)
    requires AllSpace(s)
    ensures TrimStart(s) == ""
  {
    if |s| > 0 {
      assert AllSpace(s[1..]);
      TrimStartBlank(s[1..]);
    }
  }

  lemma {:induction false} TrimStartPadded(pre: string, rest: string)
    requires AllSpace(pre)
    requires |rest| > 0 && !IsSpace(rest[0])
    ensures TrimStart(pre + rest) == rest
  {
    if |pre| == 0 {
      assert pre + rest == rest;
    } else {
      assert (pre + rest)[1..] == pre[1..] + rest;
      assert AllSpace(pre[1..]);
      TrimStartPadded(pre[1..], rest);
    }
  }

  lemma {:induction false} TrimEndPadded(rest: string, post: string)
    requires AllSpace(post)
    requires |rest| > 0 && !IsSpace(rest[|rest| - 1])
    ensures TrimEnd(rest + post) == rest
  {
    if |post| == 0 {
      assert rest + post == rest;
    } else {
      var all := rest + post;
      assert all[..|all| - 1] == rest + post[..|post| - 1];
      assert AllSpace(post[..|post| - 1]);
      TrimEndPadded(rest, post[..|post| - 1]);
    }
  }

  // ---------------------------------------------------------------------------
  // Splitting into pieces (the engine's whitespace and line splits)
  // ---------------------------------------------------------------------------

  /** Length of the longest separator-free prefix of s. */
  function RunLength(s: string, isSep: char -> bool): (n: nat)
    ensures n <= |s|
    ensures Free(s[..n], isSep)
    ensures n < |s| ==> isSep(s[n])
  {
    if |s| == 0 || isSep(s[0]) then 0
    else
      var m := RunLength(s[1..], isSep);
      assert s[..m + 1] == [s[0]] + s[1..][..m];
      m + 1
  }

  /** The maximal separator-free runs of s, in order; empty runs are culled. */
  function Split(s: string, isSep: char -> bool): (r: seq<string>)
    ensures forall k :: 0 <= k < |r| ==> IsPiece(r[k], isSep)
    decreases |s|
  {
    if |s| == 0 then []
    else if isSep(s[0]) then Split(s[1..], isSep)
    else
      var n := RunLength(s, isSep);
      [s[..n]] + Split(s[n..], isSep)
  }

  /** The pieces joined with sep between consecutive ones (Python's `sep.join`). */
  function Join(pieces: seq<string>, sep: string): string
  {
    if |pieces| == 0 then ""
    else if |pieces| == 1 then pieces[0]
    else pieces[0] + sep + Join(pieces[1..], sep)
  }

  /** A joined text begins with the first piece and ends with the last; no pieces join to "". */
  lemma {:induction false} JoinEnds(pieces: seq<string>, sep: string)
    ensures |pieces| == 0 ==> Join(pieces, sep) == ""
    ensures |pieces| > 0 ==> StartsWith(Join(pieces, sep), pieces[0])
    ensures |pieces| > 0 ==>
              var r, last := Join(pieces, sep), pieces[|pieces| - 1];
              |last| <= |r| && r[|r| - |last|..] == last
  {
    if |pieces| > 1 {
      var rest := Join(pieces[1..], sep);
      JoinEnds(pieces[1..], sep);
      assert pieces[1..][|pieces[1..]| - 1] == pieces[|pieces| - 1];
      var r := pieces[0] + sep + rest;
      assert r[..|pieces[0]|] == pieces[0];
      assert r[|r| - |rest|..] == rest;
    }
  }

  lemma {:induction false} RunLengthOfPiece(t: string, rest: string, isSep: char -> bool)
    requires Free(t, isSep)
    requires |rest| == 0 || isSep(rest[0])
    ensures RunLength(t + rest, isSep) == |t|
  {
    if |t| > 0 {
      assert (t + rest)[1..] == t[1..] + rest;
      RunLengthOfPiece(t[1..], rest, isSep);
    }
  }

  /** A piece followed by a separator (or nothing) splits off as one element. */
  lemma SplitPiece(t: string, rest: string, isSep: char -> bool)
    requires IsPiece(t, isSep)
    requires |rest| == 0 || isSep(rest[0])
    ensures Split(t + rest, isSep) == [t] + Split(rest, isSep)
  {
    RunLengthOfPiece(t, rest, isSep);
    assert (t + rest)[..|t|] == t;
    assert (t + rest)[|t|..] == rest;
  }

  /** A leading separator is dropped. */
  lemma SplitSeparator(c: char, rest: string, isSep: char -> bool)
    requires isSep(c)
    ensures Split([c] + rest, isSep) == Split(rest, isSep)
  {
    assert ([c] + rest)[1..] == rest;
  }

  /**
   Splitting undoes joining: pieces joined with a one-character separator, and
   followed by a tail that is empty or starts with a separator, split back into
   the same pieces followed by the tail's pieces.
   */
  lemma {:induction false} SplitJoin(pieces: seq<string>, c: char, tail: string, isSep: char -> bool)
    requires isSep(c)
    requires forall k :: 0 <= k < |pieces| ==> IsPiece(pieces[k], isSep)
    requires |tail| == 0 || isSep(tail[0])
    ensures Split(Join(pieces, [c]) + tail, isSep) == pieces + Split(tail, isSep)
  {
    if |pieces| == 0 {
      assert Join(pieces, [c]) + tail == tail;
    } else if |pieces| == 1 {
      SplitPiece(pieces[0], tail, isSep);
    } else {
      var more := Join(pieces[1..], [c]) + tail;
      assert forall k :: 0 <= k < |pieces[1..]| ==> pieces[1..][k] == pieces[k + 1];
      calc {
        Split(Join(pieces, [c]) + tail, isSep);
      == { assert Join(pieces, [c]) + tail == pieces[0] + ([c] + more); }
        Split(pieces[0] + ([c] + more), isSep);
      == { SplitPiece(pieces[0], [c] + more, isSep); }
        [pieces[0]] + Split([c] + more, isSep);
      == { SplitSeparator(c, more, isSep); }
        [pieces[0]] + Split(more, isSep);
      == { SplitJoin(pieces[1..], c, tail, isSep); }
        [pieces[0]] + (pieces[1..] + Split(tail, isSep));
      == { assert pieces == [pieces[0]] + pieces[1..]; }
        pieces + Split(tail, isSep);
      }
    }
  }
}
