/** The two string helpers every loader is built on: `tokenize`, a
    `std::getline`-style split on one delimiter character, and
    `removeFromString`, which filters out one character. */
module StringUtils {

  /** Every character is a 7-bit code. */
  predicate IsAscii(s: string) {
    forall c :: c in s ==> c as int < 128
  }

  /** Every character fits in one byte, as in a `std::string`. */
  predicate IsByteText(s: string) {
    forall c :: c in s ==> c as int < 256
  }

  /** Number of occurrences of `c` in `s`. */
  function Count(s: string, c: char): nat
  {
    if |s| == 0 then 0 else (if s[0] == c then 1 else 0) + Count(s[1..], c)
  }

  /** Index of the first occurrence of `x` in `s`, or `|s|` when there is none. */
  function IndexOf<T(==)>(s: seq<T>, x: T): (i: nat)
    ensures i <= |s|
    ensures i < |s| ==> s[i] == x
    ensures forall j :: 0 <= j < i ==> s[j] != x
  {
    if |s| == 0 then 0
    else if s[0] == x then 0
    else 1 + IndexOf(s[1..], x)
  }

  /** `getline(stream, piece, del)` repeated until it fails: each call takes
      the text up to the next delimiter and consumes the delimiter; a call
      that finds the stream already exhausted fails. Hence the empty string
      gives no pieces and a trailing delimiter gives no trailing empty piece. */
  function Tokenize(s: string, del: char): (pieces: seq<string>)
    ensures forall k :: 0 <= k < |pieces| ==> del !in pieces[k]
    ensures forall k, c :: 0 <= k < |pieces| && c in pieces[k] ==> c in s
    ensures IsByteText(s) ==> forall k :: 0 <= k < |pieces| ==> IsByteText(pieces[k])
    ensures IsAscii(s) ==> forall k :: 0 <= k < |pieces| ==> IsAscii(pieces[k])
    ensures |pieces| == 0 <==> |s| == 0
    decreases |s|
  {
    if |s| == 0 then []
    else
      var i := IndexOf(s, del);
      if i == |s| then [s]
      else
        SliceChars(s, 0, i);
        SliceChars(s, i + 1, |s|);
        assert s[0..i] == s[..i] && s[i + 1..|s|] == s[i + 1..];
        [s[..i]] + Tokenize(s[i + 1..], del)
  }

  /** A slice holds only characters of the whole. */
  lemma SliceChars(s: string, lo: nat, hi: nat)
    requires lo <= hi <= |s|
    ensures forall c :: c in s[lo..hi] ==> c in s
    ensures IsByteText(s) ==> IsByteText(s[lo..hi])
    ensures IsAscii(s) ==> IsAscii(s[lo..hi])
  {
    forall c | c in s[lo..hi]
      ensures c in s
    {
      var j :| 0 <= j < hi - lo && s[lo..hi][j] == c;
      assert s[lo + j] == c;
    }
  }

  /** The pieces glued back together with the delimiter between them. */
  function Join(pieces: seq<string>, del: char): string
  {
    if |pieces| == 0 then ""
    else if |pieces| == 1 then pieces[0]
    else pieces[0] + [del] + Join(pieces[1..], del)
  }

  /** `std::remove` followed by `erase`: every occurrence of `c` filtered out. */
  function RemoveFromString(s: string, c: char): (r: string)
    ensures c !in r
    ensures forall x :: x in r ==> x in s
    ensures IsByteText(s) ==> IsByteText(r)
    ensures |r| == |s| - Count(s, c)
    ensures forall x :: x != c ==> multiset(r)[x] == multiset(s)[x]
  {
    if |s| == 0 then ""
    else
      assert s == [s[0]] + s[1..];
      if s[0] == c then RemoveFromString(s[1..], c)
      else [s[0]] + RemoveFromString(s[1..], c)
  }

  /** `sub` is obtained from `s` by deleting some characters. */
  predicate IsSubsequence(sub: string, s: string)
    decreases |s|
  {
    if |s| == 0 then |sub| == 0
    else
      || (|sub| > 0 && sub[0] == s[0] && IsSubsequence(sub[1..], s[1..]))
      || IsSubsequence(sub, s[1..])
  }

  function Last(s: string): char
    requires |s| > 0
  {
    s[|s| - 1]
  }

  // ---------------------------------------------------------------------
  // tokenize

  /** Splitting then joining gives the input back, except that a trailing
      delimiter is lost. */
  lemma {:induction false} JoinTokenize(s: string, del: char)
    ensures s == Join(Tokenize(s, del), del) + (if |s| > 0 && Last(s) == del then [del] else [])
    decreases |s|
  {
    if |s| > 0 {
      var i := IndexOf(s, del);
      if i == |s| {
        assert Tokenize(s, del) == [s];
        assert Last(s) != del;
      } else {
        var rest := s[i + 1..];
        assert s == s[..i] + [del] + rest;
        assert Tokenize(s, del) == [s[..i]] + Tokenize(rest, del);
        if |rest| == 0 {
          assert Last(s) == del;
          assert Join([s[..i]], del) == s[..i];
        } else {
          JoinTokenize(rest, del);
          var tail := Tokenize(rest, del);
          JoinCons(s[..i], tail, del);
          assert Last(rest) == Last(s);
        }
      }
    }
  }

  lemma JoinCons(p: string, tail: seq<string>, del: char)
    requires |tail| > 0
    ensures Join([p] + tail, del) == p + [del] + Join(tail, del)
  {
    assert ([p] + tail)[1..] == tail;
  }

  /** The round trip: a non-empty input not ending in the delimiter is
      reproduced exactly by joining its pieces. */
  lemma TokenizeRoundTrip(s: string, del: char)
    requires |s| > 0 && Last(s) != del
    ensures Join(Tokenize(s, del), del) == s
  {
    JoinTokenize(s, del);
  }

  /** The other direction: pieces free of the delimiter, the last one
      non-empty, are recovered by splitting their join. Consecutive
      delimiters therefore give empty pieces between them. */
  lemma {:induction false} TokenizeJoin(pieces: seq<string>, del: char)
    requires |pieces| > 0 && |pieces[|pieces| - 1]| > 0
    requires forall k :: 0 <= k < |pieces| ==> del !in pieces[k]
    ensures Tokenize(Join(pieces, del), del) == pieces
    decreases |pieces|
  {
    var p := pieces[0];
    if |pieces| == 1 {
      NoDelimiterIndex(p, del);
    } else {
      var rest := pieces[1..];
      var s := Join(pieces, del);
      assert s == p + [del] + Join(rest, del);
      IndexAfterPrefix(p, del, Join(rest, del));
      assert s[..|p|] == p;
      assert s[|p| + 1..] == Join(rest, del);
      JoinNonEmpty(rest, del);
      TokenizeJoin(rest, del);
      assert Tokenize(s, del) == [p] + Tokenize(Join(rest, del), del);
      assert pieces == [p] + rest;
    }
  }

  lemma JoinNonEmpty(pieces: seq<string>, del: char)
    requires |pieces| > 0 && |pieces[|pieces| - 1]| > 0
    ensures |Join(pieces, del)| > 0
  {
  }

  lemma {:induction false} NoDelimiterIndex(s: string, del: char)
    ensures del !in s ==> IndexOf(s, del) == |s|
    decreases |s|
  {
    if |s| > 0 && del !in s {
      assert forall c :: c in s[1..] ==> c in s;
      NoDelimiterIndex(s[1..], del);
    }
  }

  lemma IndexAfterPrefix(p: string, del: char, t: string)
    requires del !in p
    ensures IndexOf(p + [del] + t, del) == |p|
  {
    var s := p + [del] + t;
    var i := IndexOf(s, del);
    assert s[|p|] == del;
    assert forall j :: 0 <= j < |p| ==> s[j] == p[j];
  }

  /** The number of pieces is the number of delimiters, plus one when the
      text after the last delimiter is non-empty. */
  lemma {:induction false} TokenizeCount(s: string, del: char)
    ensures |Tokenize(s, del)| == Count(s, del) + (if |s| > 0 && Last(s) != del then 1 else 0)
    decreases |s|
  {
    if |s| > 0 {
      var i := IndexOf(s, del);
      CountSplit(s, del, i);
      if i == |s| {
        assert Count(s, del) == 0;
      } else {
        var rest := s[i + 1..];
        TokenizeCount(rest, del);
        if |rest| > 0 {
          assert Last(rest) == Last(s);
        }
      }
    }
  }

  /** No delimiter strictly before `i`, so the count is what follows. */
  lemma CountSplit(s: string, del: char, i: nat)
    requires i == IndexOf(s, del)
    ensures i == |s| ==> Count(s, del) == 0
    ensures i < |s| ==> Count(s, del) == 1 + Count(s[i + 1..], del)
  {
    CountAbsent(s[..i], del);
    if i == |s| {
      assert s[..i] == s;
    } else {
      assert s == s[..i] + ([del] + s[i + 1..]);
      CountConcat(s[..i], [del] + s[i + 1..], del);
      assert ([del] + s[i + 1..])[1..] == s[i + 1..];
    }
  }

  lemma {:induction false} CountAbsent(s: string, c: char)
    requires forall j :: 0 <= j < |s| ==> s[j] != c
    ensures Count(s, c) == 0
    decreases |s|
  {
    if |s| > 0 {
      CountAbsent(s[1..], c);
    }
  }

  lemma {:induction false} CountConcat(a: string, b: string, c: char)
    ensures Count(a + b, c) == Count(a, c) + Count(b, c)
    decreases |a|
  {
    if |a| > 0 {
      assert (a + b)[1..] == a[1..] + b;
      CountConcat(a[1..], b, c);
    } else {
      assert a + b == b;
    }
  }

  /** Lines each followed by the terminator, as they sit in a text file. */
  function JoinTerminated(lines: seq<string>, del: char): string
  {
    if |lines| == 0 then "" else lines[0] + [del] + JoinTerminated(lines[1..], del)
  }

  /** Reading a file line by line gives back every line, empty ones included. */
  lemma {:induction false} TokenizeTerminated(lines: seq<string>, del: char)
    requires forall k :: 0 <= k < |lines| ==> del !in lines[k]
    ensures Tokenize(JoinTerminated(lines, del), del) == lines
    decreases |lines|
  {
    if |lines| > 0 {
      var p := lines[0];
      var rest := JoinTerminated(lines[1..], del);
      var s := JoinTerminated(lines, del);
      assert s == p + [del] + rest;
      assert del !in p;
      IndexAfterPrefix(p, del, rest);
      assert s[..|p|] == p;
      assert s[|p| + 1..] == rest;
      TokenizeTerminated(lines[1..], del);
      assert Tokenize(s, del) == [p] + Tokenize(rest, del);
      assert lines == [p] + lines[1..];
    }
  }

  // ---------------------------------------------------------------------
  // removeFromString

  /** The characters that remain keep their original relative order. */
  lemma {:induction false} RemoveIsSubsequence(s: string, c: char)
    ensures IsSubsequence(RemoveFromString(s, c), s)
    decreases |s|
  {
    if |s| > 0 {
      RemoveIsSubsequence(s[1..], c);
      if s[0] != c {
        var r := RemoveFromString(s, c);
        assert r[0] == s[0] && r[1..] == RemoveFromString(s[1..], c);
      }
    }
  }

  /** Removing a character that does not occur changes nothing. */
  lemma {:induction false} RemoveAbsent(s: string, c: char)
    requires c !in s
    ensures RemoveFromString(s, c) == s
    decreases |s|
  {
    if |s| > 0 {
      assert s[0] in s;
      assert forall x :: x in s[1..] ==> x in s;
      RemoveAbsent(s[1..], c);
      assert s == [s[0]] + s[1..];
    }
  }

  /** Removing the same character twice is removing it once. */
  lemma RemoveIdempotent(s: string, c: char)
    ensures RemoveFromString(RemoveFromString(s, c), c) == RemoveFromString(s, c)
  {
    RemoveAbsent(RemoveFromString(s, c), c);
  }
}
