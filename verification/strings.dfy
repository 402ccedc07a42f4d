/** The Python 2 byte-string operations the core relies on: `find`, `split`
    (with and without a separator), `count`, `join` and ASCII `lower`. */
module Strings {
  import opened Wrappers

  /** `sep` occurs in `s` starting at index `i`. */
  predicate OccursAt(s: string, sep: string, i: int)
  {
    0 <= i && i + |sep| <= |s| && s[i..i + |sep|] == sep
  }

  /** Python's `sep in s`. */
  predicate Contains(s: string, sep: string)
  {
    exists i :: 0 <= i <= |s| && OccursAt(s, sep, i)
  }

  /** Python's `s.find(sep, from)`: the first occurrence at or after `from`. */
  function FindFrom(s: string, sep: string, from: nat): (r: Option<nat>)
    requires |sep| > 0
    ensures r.Some? ==> from <= r.value && OccursAt(s, sep, r.value)
    ensures r.Some? ==> forall j :: from <= j < r.value ==> !OccursAt(s, sep, j)
    ensures r.None? ==> forall j :: from <= j ==> !OccursAt(s, sep, j)
    decreases |s| - from
  {
    if from + |sep| > |s| then None
    else if s[from..from + |sep|] == sep then Some(from)
    else FindFrom(s, sep, from + 1)
  }

  /** Python's `s.split(sep)` for a non-empty separator: the text between
      consecutive leftmost, non-overlapping occurrences of `sep`. */
  function Split(s: string, sep: string): (pieces: seq<string>)
    requires |sep| > 0
    ensures |pieces| >= 1
    decreases |s|
  {
    match FindFrom(s, sep, 0)
    case None => [s]
    case Some(i) => [s[..i]] + Split(s[i + |sep|..], sep)
  }

  /** Python's `sep.join(pieces)`. */
  function Join(pieces: seq<string>, sep: string): (r: string)
    ensures |pieces| == 0 ==> r == ""
    ensures |pieces| > 0 ==> |pieces[0]| <= |r| && r[..|pieces[0]|] == pieces[0]
  {
    if |pieces| == 0 then ""
    else if |pieces| == 1 then pieces[0]
    else pieces[0] + sep + Join(pieces[1..], sep)
  }

  /** Python's `s.count(sep)` for a non-empty separator: occurrences counted
      from the left without overlap. */
  function CountOccurrences(s: string, sep: string): (n: nat)
    requires |sep| > 0
    ensures n * |sep| <= |s|
    decreases |s|
  {
    if |s| < |sep| then 0
    else if s[..|sep|] == sep then 1 + CountOccurrences(s[|sep|..], sep)
    else CountOccurrences(s[1..], sep)
  }

  lemma OccursInPrefix(s: string, sep: string, n: nat, j: int)
    requires n <= |s|
    requires OccursAt(s[..n], sep, j)
    ensures OccursAt(s, sep, j)
  {
    assert s[..n][j..j + |sep|] == s[j..j + |sep|];
  }

  lemma OccursInSuffix(s: string, sep: string, n: nat, j: int)
    requires n <= |s|
    requires OccursAt(s[n..], sep, j)
    ensures OccursAt(s, sep, n + j)
  {
    assert s[n..][j..j + |sep|] == s[n + j..n + j + |sep|];
  }

  /** Joining the pieces of a split with the same separator gives back the text. */
  lemma {:induction false} JoinSplit(s: string, sep: string)
    requires |sep| > 0
    ensures Join(Split(s, sep), sep) == s
    decreases |s|
  {
    match FindFrom(s, sep, 0)
    case None =>
    case Some(i) =>
      var rest := s[i + |sep|..];
      var tail := Split(rest, sep);
      JoinSplit(rest, sep);
      var pieces := [s[..i]] + tail;
      assert Split(s, sep) == pieces;
      assert pieces[0] == s[..i] && pieces[1..] == tail;
      assert Join(pieces, sep) == s[..i] + sep + rest;
      assert s == s[..i] + s[i..i + |sep|] + rest;
  }

  /** No piece of a split contains the separator. */
  lemma {:induction false} SplitPiecesAvoidSeparator(s: string, sep: string)
    requires |sep| > 0
    ensures forall k :: 0 <= k < |Split(s, sep)| ==> !Contains(Split(s, sep)[k], sep)
    decreases |s|
  {
    match FindFrom(s, sep, 0)
    case None =>
      assert Split(s, sep) == [s];
      assert s[..|s|] == s;
      PrefixAvoidsSeparator(s, sep, |s|);
    case Some(i) =>
      var rest := s[i + |sep|..];
      SplitPiecesAvoidSeparator(rest, sep);
      var pieces := Split(s, sep);
      assert pieces == [s[..i]] + Split(rest, sep);
      PrefixAvoidsSeparator(s, sep, i);
      forall k | 0 <= k < |pieces|
        ensures !Contains(pieces[k], sep)
      {
        if k > 0 {
          assert pieces[k] == Split(rest, sep)[k - 1];
        }
      }
  }

  /** Every cut of a split is the leftmost one: each piece but the last,
      followed by the separator, has its first occurrence of the separator
      right after the piece. So `"aaa".split("aa")` is `["", "a"]`. */
  lemma {:induction false} SplitLeftmost(s: string, sep: string)
    requires |sep| > 0
    ensures forall k :: 0 <= k < |Split(s, sep)| - 1 ==>
      FindFrom(Split(s, sep)[k] + sep, sep, 0) == Some(|Split(s, sep)[k]|)
    decreases |s|
  {
    match FindFrom(s, sep, 0)
    case None =>
      assert Split(s, sep) == [s];
    case Some(i) =>
      var rest := s[i + |sep|..];
      SplitLeftmost(rest, sep);
      var pieces := Split(s, sep);
      assert pieces == [s[..i]] + Split(rest, sep);
      FirstPieceLeftmost(s, sep, i);
      forall k | 0 <= k < |pieces| - 1
        ensures FindFrom(pieces[k] + sep, sep, 0) == Some(|pieces[k]|)
      {
        if k > 0 {
          assert pieces[k] == Split(rest, sep)[k - 1];
        }
      }
  }

  /** With a separator that overlaps itself, the cut is the leftmost one. */
  lemma SplitOverlapExample()
    ensures Split("aaa", "aa") == ["", "a"]
  {
    assert "aaa"[0..2] == "aa";
    assert FindFrom("aaa", "aa", 0) == Some(0);
    assert "aaa"[2..] == "a";
    assert FindFrom("a", "aa", 0) == None;
    assert "aaa"[..0] == "";
  }

  /** The text before the first occurrence of the separator, followed by the
      separator, has that occurrence as its first one. */
  lemma FirstPieceLeftmost(s: string, sep: string, i: nat)
    requires |sep| > 0 && OccursAt(s, sep, i)
    requires forall j :: 0 <= j < i ==> !OccursAt(s, sep, j)
    ensures FindFrom(s[..i] + sep, sep, 0) == Some(i)
  {
    FirstPieceOccurrences(s, sep, i);
    FindFromFirst(s[..i] + sep, sep, 0, i);
  }

  lemma FirstPieceOccurrences(s: string, sep: string, i: nat)
    requires OccursAt(s, sep, i)
    requires forall j :: 0 <= j < i ==> !OccursAt(s, sep, j)
    ensures OccursAt(s[..i] + sep, sep, i)
    ensures forall j :: 0 <= j < i ==> !OccursAt(s[..i] + sep, sep, j)
  {
    var n := i + |sep|;
    assert s[..i] + sep == s[..n] by {
      assert s[..n] == s[..i] + s[i..n];
    }
    assert OccursAt(s[..n], sep, i) by {
      assert s[..n][i..n] == s[i..n];
    }
    NoneEarlierInPrefix(s, sep, n, i);
  }

  lemma NoneEarlierInPrefix(s: string, sep: string, n: nat, i: nat)
    requires n <= |s| && i + |sep| <= n
    requires forall j :: 0 <= j < i ==> !OccursAt(s, sep, j)
    ensures forall j :: 0 <= j < i ==> !OccursAt(s[..n], sep, j)
  {
    forall j | 0 <= j < i
      ensures !OccursAt(s[..n], sep, j)
    {
      OccursInPrefixIff(s, sep, n, j);
    }
  }

  lemma OccursInPrefixIff(s: string, sep: string, n: nat, j: nat)
    requires n <= |s| && j + |sep| <= n
    ensures OccursAt(s[..n], sep, j) <==> OccursAt(s, sep, j)
  {
    assert s[..n][j..j + |sep|] == s[j..j + |sep|];
  }

  /** An occurrence with none before it, from `from` on, is what `FindFrom` finds. */
  lemma FindFromFirst(x: string, sep: string, from: nat, i: nat)
    requires |sep| > 0 && from <= i && OccursAt(x, sep, i)
    requires forall j :: from <= j < i ==> !OccursAt(x, sep, j)
    ensures FindFrom(x, sep, from) == Some(i)
  {
  }

  /** A prefix in which no occurrence starts does not contain the separator. */
  lemma PrefixAvoidsSeparator(s: string, sep: string, i: nat)
    requires |sep| > 0 && i <= |s|
    requires forall j :: 0 <= j < i ==> !OccursAt(s, sep, j)
    ensures !Contains(s[..i], sep)
  {
    forall j | OccursAt(s[..i], sep, j)
      ensures false
    {
      OccursInPrefix(s, sep, i, j);
    }
  }

  /** Counting is unaffected by a prefix in which the separator does not start. */
  lemma {:induction false} CountSkips(s: string, sep: string, i: nat)
    requires |sep| > 0
    requires i <= |s|
    requires forall j :: 0 <= j < i ==> !OccursAt(s, sep, j)
    ensures CountOccurrences(s, sep) == CountOccurrences(s[i..], sep)
    decreases i
  {
    if i > 0 {
      assert !OccursAt(s, sep, 0);
      if |s| < |sep| {
        assert CountOccurrences(s[i..], sep) == 0;
      } else {
        assert s[..|sep|] != sep;
        forall j | 0 <= j < i - 1
          ensures !OccursAt(s[1..], sep, j)
        {
          if OccursAt(s[1..], sep, j) {
            OccursInSuffix(s, sep, 1, j);
          }
        }
        CountSkips(s[1..], sep, i - 1);
        assert s[1..][i - 1..] == s[i..];
      }
    }
  }

  /** A split yields one piece more than there are occurrences of the separator. */
  lemma {:induction false} SplitCount(s: string, sep: string)
    requires |sep| > 0
    ensures |Split(s, sep)| == CountOccurrences(s, sep) + 1
    decreases |s|
  {
    match FindFrom(s, sep, 0)
    case None =>
      assert Split(s, sep) == [s];
      CountSkips(s, sep, |s|);
      assert CountOccurrences(s[|s|..], sep) == 0;
    case Some(i) =>
      var rest := s[i + |sep|..];
      assert Split(s, sep) == [s[..i]] + Split(rest, sep);
      SplitCount(rest, sep);
      CountFirst(s, sep, i);
  }

  /** The count up to and including the first occurrence is one. */
  lemma CountFirst(s: string, sep: string, i: nat)
    requires |sep| > 0
    requires FindFrom(s, sep, 0) == Some(i)
    ensures CountOccurrences(s, sep) == 1 + CountOccurrences(s[i + |sep|..], sep)
  {
    var rest := s[i + |sep|..];
    CountSkips(s, sep, i);
    assert s[i..][..|sep|] == sep;
    assert s[i..][|sep|..] == rest;
  }

  /** Splitting on a one-character separator undoes joining pieces that do not
      contain it. */
  lemma {:induction false} SplitJoinChar(pieces: seq<string>, c: char)
    requires |pieces| >= 1
    requires forall k :: 0 <= k < |pieces| ==> c !in pieces[k]
    ensures Split(Join(pieces, [c]), [c]) == pieces
    decreases |pieces|
  {
    var s := Join(pieces, [c]);
    var p0 := pieces[0];
    if |pieces| == 1 {
      match FindFrom(s, [c], 0)
      case None =>
      case Some(i) =>
        CharAbsentNowhere(s, c, i);
    } else {
      var rest := pieces[1..];
      SplitJoinChar(rest, c);
      assert s == p0 + [c] + Join(rest, [c]);
      assert OccursAt(s, [c], |p0|) by {
        assert s[|p0|..|p0| + 1] == [c];
      }
      match FindFrom(s, [c], 0)
      case None =>
        assert false;
      case Some(i) =>
        if i < |p0| {
          JoinedCharAbsent(s, p0, c, i);
        }
        assert i == |p0|;
        assert s[..i] == p0;
        assert s[i + 1..] == Join(rest, [c]);
        assert pieces == [p0] + rest;
    }
  }

  lemma CharAbsentNowhere(s: string, c: char, i: int)
    requires c !in s
    ensures !OccursAt(s, [c], i)
  {
    if 0 <= i < |s| {
      assert s[i..i + 1] == [s[i]];
    }
  }

  lemma JoinedCharAbsent(s: string, p0: string, c: char, i: nat)
    requires |p0| <= |s| && s[..|p0|] == p0
    requires c !in p0
    requires i < |p0|
    ensures !OccursAt(s, [c], i)
  {
    assert s[i] == p0[i];
  }

  /** Python 2's `isspace` for a byte: space, tab, newline, vertical tab,
      form feed and carriage return. */
  predicate IsSpace(c: char)
  {
    c == ' ' || '\t' <= c <= '\r'
  }

  predicate NoSpace(s: string)
  {
    forall i :: 0 <= i < |s| ==> !IsSpace(s[i])
  }

  /** Number of whitespace characters that start `s`. */
  function LeadingSpaces(s: string): (n: nat)
    ensures n <= |s|
    ensures forall i :: 0 <= i < n ==> IsSpace(s[i])
    ensures n < |s| ==> !IsSpace(s[n])
    decreases |s|
  {
    if |s| > 0 && IsSpace(s[0]) then 1 + LeadingSpaces(s[1..]) else 0
  }

  /** Number of whitespace characters that end `s`. */
  function TrailingSpaces(s: string): (n: nat)
    ensures n <= |s|
    ensures forall i :: |s| - n <= i < |s| ==> IsSpace(s[i])
    ensures n < |s| ==> !IsSpace(s[|s| - n - 1])
    decreases |s|
  {
    if |s| > 0 && IsSpace(s[|s| - 1]) then 1 + TrailingSpaces(s[..|s| - 1]) else 0
  }

  /** `s` without its leading whitespace. */
  function TrimStart(s: string): string
  {
    s[LeadingSpaces(s)..]
  }

  /** `s` without its trailing whitespace. */
  function TrimEnd(s: string): string
  {
    s[..|s| - TrailingSpaces(s)]
  }

  /** Every character of `s` is whitespace. */
  predicate AllSpace(s: string)
  {
    forall i :: 0 <= i < |s| ==> IsSpace(s[i])
  }

  /** Python's `s.strip()`. */
  function Strip(s: string): (t: string)
    ensures |t| <= |s|
    ensures |t| > 0 ==> !IsSpace(t[0]) && !IsSpace(t[|t| - 1])
  {
    TrimEnd(TrimStart(s))
  }

  /** Stripping removes whitespace at the two ends only: the result is a
      contiguous part of `s` with nothing but whitespace before and after it. */
  lemma StripMiddle(s: string)
    ensures exists i, j ::
      0 <= i <= j <= |s| && Strip(s) == s[i..j] && AllSpace(s[..i]) && AllSpace(s[j..])
  {
    var i := LeadingSpaces(s);
    var a := s[i..];
    var j := i + (|a| - TrailingSpaces(a));
    assert forall k :: 0 <= k < |s[j..]| ==> s[j..][k] == a[|a| - TrailingSpaces(a) + k];
    assert Strip(s) == s[i..j];
  }

  /** A text is its prefix, middle and suffix put back together. */
  lemma SliceThree(s: string, i: nat, j: nat)
    requires i <= j <= |s|
    ensures s == s[..i] + s[i..j] + s[j..]
  {
  }

  /** Stripping keeps every non-whitespace character and adds none. */
  lemma StripKeepsText(s: string)
    ensures forall c :: c in Strip(s) ==> c in s
    ensures forall k :: 0 <= k < |s| && !IsSpace(s[k]) ==> s[k] in Strip(s)
    ensures NoSpace(s) ==> Strip(s) == s
  {
    var lo := LeadingSpaces(s);
    var a := s[lo..];
    var hi := |a| - TrailingSpaces(a);
    var t := a[..hi];
    assert Strip(s) == t;
    forall c | c in t
      ensures c in s
    {
      var m :| 0 <= m < |t| && t[m] == c;
      assert s[lo + m] == c;
    }
    forall k | 0 <= k < |s| && !IsSpace(s[k])
      ensures s[k] in t
    {
      assert lo <= k;
      assert a[k - lo] == s[k];
      assert k - lo < hi;
      assert t[k - lo] == s[k];
    }
  }

  /** `LeadingSpaces` is the one length whose prefix is all whitespace and
      which stops at a non-whitespace character or at the end. */
  lemma LeadingSpacesUnique(s: string, n: nat)
    requires n <= |s| && AllSpace(s[..n])
    requires n < |s| ==> !IsSpace(s[n])
    ensures LeadingSpaces(s) == n
  {
    assert forall k :: 0 <= k < n ==> s[..n][k] == s[k];
  }

  lemma TrailingSpacesUnique(s: string, n: nat)
    requires n <= |s| && AllSpace(s[|s| - n..])
    requires n < |s| ==> !IsSpace(s[|s| - n - 1])
    ensures TrailingSpaces(s) == n
  {
    assert forall k :: |s| - n <= k < |s| ==> s[|s| - n..][k - (|s| - n)] == s[k];
  }

  /** Stripping text padded with whitespace gives the text back, provided it
      neither starts nor ends with whitespace itself. */
  lemma StripPadded(pre: string, core: string, post: string)
    requires AllSpace(pre) && AllSpace(post)
    requires |core| > 0 ==> !IsSpace(core[0]) && !IsSpace(core[|core| - 1])
    ensures Strip(pre + core + post) == core
  {
    var s := pre + core + post;
    if |core| == 0 {
      assert s == pre + post;
      assert forall k :: 0 <= k < |s| ==> s[..|s|][k] == s[k];
      LeadingSpacesUnique(s, |s|);
      assert TrimStart(s) == "";
    } else {
      assert s[..|pre|] == pre;
      assert s[|pre|] == core[0];
      LeadingSpacesUnique(s, |pre|);
      var a := s[|pre|..];
      assert a == core + post;
      assert a[|a| - |post|..] == post;
      assert a[|a| - |post| - 1] == core[|core| - 1];
      TrailingSpacesUnique(a, |post|);
      assert a[..|a| - |post|] == core;
    }
  }

  /** Length of the run of non-whitespace characters that starts `s`. */
  function WordLength(s: string): (n: nat)
    ensures n <= |s|
    ensures NoSpace(s[..n])
    ensures n < |s| ==> IsSpace(s[n])
    decreases |s|
  {
    if |s| == 0 || IsSpace(s[0]) then 0
    else
      var n := 1 + WordLength(s[1..]);
      assert s[..n] == [s[0]] + s[1..][..n - 1];
      n
  }

  /** Python's `s.split()` with no separator: the maximal runs of
      non-whitespace, with no empty strings. */
  function SplitWhitespace(s: string): (words: seq<string>)
    ensures |words| == 0 <==> forall k :: 0 <= k < |s| ==> IsSpace(s[k])
    decreases |s|
  {
    var t := TrimStart(s);
    if |t| == 0 then []
    else
      var n := WordLength(t);
      [t[..n]] + SplitWhitespace(t[n..])
  }

  /** The words of a whitespace split are non-empty and hold no whitespace. */
  lemma {:induction false} SplitWhitespaceWords(s: string)
    ensures forall k :: 0 <= k < |SplitWhitespace(s)| ==>
      |SplitWhitespace(s)[k]| > 0 && NoSpace(SplitWhitespace(s)[k])
    decreases |s|
  {
    var t := TrimStart(s);
    if |t| > 0 {
      var n := WordLength(t);
      SplitWhitespaceWords(t[n..]);
      var words := [t[..n]] + SplitWhitespace(t[n..]);
      assert SplitWhitespace(s) == words;
      forall k | 0 <= k < |words|
        ensures |words[k]| > 0 && NoSpace(words[k])
      {
        if k > 0 {
          assert words[k] == SplitWhitespace(t[n..])[k - 1];
        }
      }
    }
  }

  /** `s` with every whitespace character removed. */
  function RemoveSpaces(s: string): string
    decreases |s|
  {
    if |s| == 0 then ""
    else if IsSpace(s[0]) then RemoveSpaces(s[1..])
    else [s[0]] + RemoveSpaces(s[1..])
  }

  function Concat(words: seq<string>): string
  {
    if |words| == 0 then "" else words[0] + Concat(words[1..])
  }

  lemma {:induction false} RemoveSpacesAppend(a: string, b: string)
    ensures RemoveSpaces(a + b) == RemoveSpaces(a) + RemoveSpaces(b)
    decreases |a|
  {
    if |a| > 0 {
      assert (a + b)[1..] == a[1..] + b;
      RemoveSpacesAppend(a[1..], b);
    } else {
      assert a + b == b;
    }
  }

  lemma {:induction false} RemoveSpacesOfSpaces(s: string)
    requires forall i :: 0 <= i < |s| ==> IsSpace(s[i])
    ensures RemoveSpaces(s) == ""
    decreases |s|
  {
    if |s| > 0 {
      RemoveSpacesOfSpaces(s[1..]);
    }
  }

  lemma {:induction false} RemoveSpacesOfWord(s: string)
    requires NoSpace(s)
    ensures RemoveSpaces(s) == s
    decreases |s|
  {
    if |s| > 0 {
      RemoveSpacesOfWord(s[1..]);
    }
  }

  lemma RemoveSpacesTrimStart(s: string)
    ensures RemoveSpaces(s) == RemoveSpaces(TrimStart(s))
  {
    var t := TrimStart(s);
    var lead := s[..|s| - |t|];
    assert s == lead + t;
    assert forall i :: 0 <= i < |lead| ==> lead[i] == s[i];
    RemoveSpacesAppend(lead, t);
    RemoveSpacesOfSpaces(lead);
  }

  lemma ConcatCons(w: string, ws: seq<string>)
    ensures Concat([w] + ws) == w + Concat(ws)
  {
    assert ([w] + ws)[1..] == ws;
  }

  lemma WordStep(t: string, n: nat)
    requires n <= |t| && NoSpace(t[..n])
    ensures RemoveSpaces(t) == t[..n] + RemoveSpaces(t[n..])
  {
    assert t == t[..n] + t[n..];
    RemoveSpacesAppend(t[..n], t[n..]);
    RemoveSpacesOfWord(t[..n]);
  }

  /** The words of a whitespace split are the non-whitespace text, in order. */
  lemma {:induction false} SplitWhitespaceKeepsText(s: string)
    ensures Concat(SplitWhitespace(s)) == RemoveSpaces(s)
    decreases |s|
  {
    var t := TrimStart(s);
    RemoveSpacesTrimStart(s);
    if |t| > 0 {
      var n := WordLength(t);
      assert n > 0;
      var word, more := t[..n], t[n..];
      SplitWhitespaceKeepsText(more);
      WordStep(t, n);
      ConcatCons(word, SplitWhitespace(more));
    }
  }

  /** Splitting on whitespace undoes joining non-empty words with single spaces. */
  lemma {:induction false} SplitWhitespaceJoin(words: seq<string>)
    requires forall k :: 0 <= k < |words| ==> |words[k]| > 0 && NoSpace(words[k])
    ensures SplitWhitespace(Join(words, " ")) == words
    decreases |words|
  {
    if |words| == 0 {
      SplitWhitespaceEmpty();
    } else if |words| == 1 {
      SplitWhitespaceOneWord(words);
    } else {
      var others := words[1..];
      assert forall k :: 0 <= k < |others| ==> others[k] == words[k + 1];
      SplitWhitespaceJoin(others);
      SplitWhitespaceJoinStep(words);
    }
  }

  lemma SplitWhitespaceOneWord(words: seq<string>)
    requires |words| == 1 && |words[0]| > 0 && NoSpace(words[0])
    ensures SplitWhitespace(Join(words, " ")) == words
  {
    var w := words[0];
    SplitWhitespaceCons(w, "");
    assert w + "" == w;
    SplitWhitespaceEmpty();
    assert Join(words, " ") == w;
    assert SplitWhitespace(w) == [w] + [];
    assert words == [w];
  }

  /** The first word of a join comes off the front of its split. */
  lemma SplitWhitespaceJoinStep(words: seq<string>)
    requires |words| > 1 && |words[0]| > 0 && NoSpace(words[0])
    requires SplitWhitespace(Join(words[1..], " ")) == words[1..]
    ensures SplitWhitespace(Join(words, " ")) == words
  {
    JoinCons(words, " ");
    SplitWhitespaceSpaced(words[0], Join(words[1..], " "));
    assert words == [words[0]] + words[1..];
  }

  /** A word and a space come off the front of a whitespace split. */
  lemma SplitWhitespaceSpaced(first: string, rest: string)
    requires |first| > 0 && NoSpace(first)
    ensures SplitWhitespace(first + (" " + rest)) == [first] + SplitWhitespace(rest)
  {
    var tail := " " + rest;
    SplitWhitespaceCons(first, tail);
    SplitWhitespaceLeadingSpace(rest);
  }

  lemma SplitWhitespaceEmpty()
    ensures SplitWhitespace("") == []
  {
    assert TrimStart("") == "";
  }

  lemma JoinCons(pieces: seq<string>, sep: string)
    requires |pieces| > 1
    ensures Join(pieces, sep) == pieces[0] + (sep + Join(pieces[1..], sep))
  {
  }

  /** A word followed by nothing or by whitespace is the first word of the split. */
  lemma SplitWhitespaceCons(w: string, tail: string)
    requires |w| > 0 && NoSpace(w)
    requires |tail| > 0 ==> IsSpace(tail[0])
    ensures SplitWhitespace(w + tail) == [w] + SplitWhitespace(tail)
  {
    var s := w + tail;
    assert s[0] == w[0];
    assert LeadingSpaces(s) == 0;
    assert TrimStart(s) == s;
    WordLengthOfWord(s, w, tail);
    assert s[|w|..] == tail;
  }

  /** Whitespace in front of the text does not change its whitespace split. */
  lemma SplitWhitespaceSkip(sp: string, r: string)
    requires AllSpace(sp)
    ensures SplitWhitespace(sp + r) == SplitWhitespace(r)
  {
    var s := sp + r;
    var n := |sp| + LeadingSpaces(r);
    assert forall k :: 0 <= k < n ==> s[..n][k] == (if k < |sp| then sp[k] else r[k - |sp|]);
    LeadingSpacesUnique(s, n);
    assert TrimStart(s) == TrimStart(r);
  }

  /** A whitespace split cuts at every run of whitespace: splitting `a + w + b`
      with `w` non-empty whitespace gives the words of `a`, then those of `b`,
      so no word runs across `w`. */
  lemma {:induction false} SplitWhitespaceGap(a: string, w: string, b: string)
    requires |w| > 0 && AllSpace(w)
    ensures SplitWhitespace(a + w + b) == SplitWhitespace(a) + SplitWhitespace(b)
    decreases |a|
  {
    if LeadingSpaces(a) == |a| {
      SplitWhitespaceBlankGap(a, w, b);
    } else {
      var word, rest := SplitWhitespaceFirstWord(a, w, b);
      SplitWhitespaceGap(rest, w, b);
      ConcatAssoc([word], SplitWhitespace(rest), SplitWhitespace(b));
    }
  }

  /** The first word of text that is not all whitespace, and the text after it. */
  lemma SplitWhitespaceFirstWord(a: string, w: string, b: string) returns (word: string, rest: string)
    requires |w| > 0 && AllSpace(w) && LeadingSpaces(a) < |a|
    ensures |rest| < |a|
    ensures SplitWhitespace(a + w + b) == [word] + SplitWhitespace(rest + w + b)
    ensures SplitWhitespace(a) == [word] + SplitWhitespace(rest)
  {
    var lead := LeadingSpaces(a);
    var sp, t := a[..lead], a[lead..];
    assert AllSpace(sp) by {
      assert forall k :: 0 <= k < lead ==> sp[k] == a[k];
    }
    var n := WordLength(t);
    word, rest := t[..n], t[n..];
    assert a == sp + (word + rest);
    assert |rest| > 0 ==> rest[0] == t[n];
    SplitWhitespaceGapStep(a, w, b, sp, word, rest);
  }

  /** The first word of `a` comes off the front of the split of `a + w + b`. */
  lemma SplitWhitespaceGapStep(a: string, w: string, b: string, sp: string, word: string, rest: string)
    requires |w| > 0 && AllSpace(w) && AllSpace(sp)
    requires |word| > 0 && NoSpace(word) && (|rest| > 0 ==> IsSpace(rest[0]))
    requires a == sp + (word + rest)
    ensures SplitWhitespace(a + w + b) == [word] + SplitWhitespace(rest + w + b)
    ensures SplitWhitespace(a) == [word] + SplitWhitespace(rest)
  {
    ConcatAssoc(sp, word + rest, w);
    ConcatAssoc(sp, word + rest + w, b);
    ConcatAssoc(word, rest, w);
    ConcatAssoc(word, rest + w, b);
    SplitWhitespaceSkip(sp, word + rest);
    SplitWhitespaceSkip(sp, word + (rest + w + b));
    var tail := rest + w + b;
    assert tail[0] == if |rest| > 0 then rest[0] else w[0];
    SplitWhitespaceCons(word, rest);
    SplitWhitespaceCons(word, tail);
  }

  lemma SplitWhitespaceBlankGap(a: string, w: string, b: string)
    requires AllSpace(w) && LeadingSpaces(a) == |a|
    ensures SplitWhitespace(a + w + b) == SplitWhitespace(a) + SplitWhitespace(b)
  {
    var sp := a + w;
    assert AllSpace(sp) by {
      assert forall k :: 0 <= k < |sp| ==> sp[k] == if k < |a| then a[k] else w[k - |a|];
    }
    SplitWhitespaceSkip(sp, b);
    assert SplitWhitespace(a) == [];
  }

  /** Concatenation is associative. */
  lemma ConcatAssoc<T>(x: seq<T>, y: seq<T>, z: seq<T>)
    ensures x + (y + z) == (x + y) + z
  {
  }

  lemma SplitWhitespaceLeadingSpace(r: string)
    ensures SplitWhitespace(" " + r) == SplitWhitespace(r)
  {
    assert (" " + r)[1..] == r;
    assert TrimStart(" " + r) == TrimStart(r);
  }

  lemma WordLengthOfWord(s: string, w: string, tail: string)
    requires s == w + tail
    requires NoSpace(w)
    requires |tail| > 0 ==> IsSpace(tail[0])
    ensures WordLength(s) == |w|
    ensures s[..|w|] == w
  {
    var n := WordLength(s);
  }

  /** Python 2's `str.lower` in the C locale: only ASCII capitals change. */
  function LowerChar(c: char): (d: char)
    ensures 'A' <= c <= 'Z' ==> 'a' <= d <= 'z' && d as int - c as int == 32
    ensures !('A' <= c <= 'Z') ==> d == c
  {
    if 'A' <= c <= 'Z' then (c as int + 32) as char else c
  }

  function Lower(s: string): (t: string)
    ensures |t| == |s|
    ensures forall i :: 0 <= i < |s| ==> t[i] == LowerChar(s[i])
  {
    seq(|s|, i requires 0 <= i < |s| => LowerChar(s[i]))
  }
}
