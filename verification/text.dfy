/** The string operations the server leans on: `str::split` by a fixed
    pattern and `BufRead::read_line` over the bytes still unread. */
module Text {
  import opened Base

  /** `sep` occurs in `s` starting at index `i`. */
  predicate MatchAt(s: string, sep: string, i: nat) {
    i + |sep| <= |s| && s[i..i + |sep|] == sep
  }

  /** No occurrence of `sep` in `s` starts before index `k`. */
  predicate NoMatchBefore(s: string, sep: string, k: nat) {
    forall j: nat :: j < k ==> !MatchAt(s, sep, j)
  }

  /** The leftmost occurrence of `sep` in `s` at or after `from`. */
  function Find(s: string, sep: string, from: nat): (r: Option<nat>)
    requires 0 < |sep| && from <= |s|
    ensures r.Some? ==> from <= r.value && r.value + |sep| <= |s|
    decreases |s| - from
  {
    if from + |sep| > |s| then None
    else if s[from..from + |sep|] == sep then Some(from)
    else Find(s, sep, from + 1)
  }

  /** `Find` returns the leftmost match at or after `from`, and `None` only
      when there is none. */
  lemma {:induction false} FindSpec(s: string, sep: string, from: nat)
    requires 0 < |sep| && from <= |s|
    ensures var r := Find(s, sep, from);
            && (r.Some? ==> MatchAt(s, sep, r.value))
            && (r.Some? ==> forall j: nat :: from <= j < r.value ==> !MatchAt(s, sep, j))
            && (r.None? ==> forall j: nat :: from <= j ==> !MatchAt(s, sep, j))
    decreases |s| - from
  {
    if from + |sep| <= |s| && s[from..from + |sep|] != sep {
      FindSpec(s, sep, from + 1);
    }
  }

  /** `s.split(sep)` collected into a vector: the pieces between the
      non-overlapping occurrences of `sep`, scanned left to right. There is
      always at least one piece. */
  function Split(s: string, sep: string): (parts: seq<string>)
    requires 0 < |sep|
    ensures 1 <= |parts|
    decreases |s|
  {
    match Find(s, sep, 0)
    case None => [s]
    case Some(i) => [s[..i]] + Split(s[i + |sep|..], sep)
  }

  /** The first piece of a split is a prefix of the text; it is empty only
      when the text starts with the separator or is empty. */
  lemma {:induction false} SplitFirst(s: string, sep: string)
    requires 0 < |sep|
    ensures var first := Split(s, sep)[0];
            && |first| <= |s| && first == s[..|first|]
            && (s != [] && s[0] != sep[0] ==> first != [])
  {
    FindSpec(s, sep, 0);
    match Find(s, sep, 0)
    case None =>
    case Some(i) =>
      if i == 0 && s != [] {
        assert s[0] == s[..|sep|][0];
      }
  }

  /** `parts.join(sep)`. */
  function Join(parts: seq<string>, sep: string): string
    requires 1 <= |parts|
  {
    if |parts| == 1 then parts[0] else parts[0] + sep + Join(parts[1..], sep)
  }

  /** Splitting loses nothing: joining the pieces back restores the text. */
  lemma {:induction false} JoinSplit(s: string, sep: string)
    requires 0 < |sep|
    ensures Join(Split(s, sep), sep) == s
    decreases |s|
  {
    match Find(s, sep, 0)
    case None =>
    case Some(i) =>
      var rest := s[i + |sep|..];
      var parts := Split(s, sep);
      assert parts == [s[..i]] + Split(rest, sep);
      assert parts[1..] == Split(rest, sep);
      JoinSplit(rest, sep);
      FindSpec(s, sep, 0);
      assert s[i..i + |sep|] == sep;
      assert s == s[..i] + sep + rest;
  }

  /** When the first occurrence of `sep` is right after `a`, the first piece
      is `a` and the rest is the split of what follows. */
  lemma {:induction false} SplitCons(a: string, sep: string, b: string)
    requires 0 < |sep|
    requires NoMatchBefore(a + sep + b, sep, |a|)
    ensures Split(a + sep + b, sep) == [a] + Split(b, sep)
  {
    var s := a + sep + b;
    assert MatchAt(s, sep, |a|) by {
      assert s[|a|..|a| + |sep|] == sep;
    }
    FindLeftmost(s, sep, 0, |a|);
    assert s[..|a|] == a;
    assert s[|a| + |sep|..] == b;
  }

  /** Text without any occurrence of `sep` is a single piece. */
  lemma {:induction false} SplitNoMatch(s: string, sep: string)
    requires 0 < |sep|
    requires NoMatchBefore(s, sep, |s| + 1)
    ensures Split(s, sep) == [s]
  {
    FindSpec(s, sep, 0);
  }

  /** A match with none before it (from `from` on) is the one `Find`
      returns. */
  lemma {:induction false} FindLeftmost(s: string, sep: string, from: nat, i: nat)
    requires 0 < |sep| && from <= i
    requires MatchAt(s, sep, i)
    requires forall j: nat :: from <= j < i ==> !MatchAt(s, sep, j)
    ensures Find(s, sep, from) == Some(i)
    decreases i - from
  {
    if from < i {
      assert !MatchAt(s, sep, from);
      FindLeftmost(s, sep, from + 1, i);
    }
  }

  /** A single-character separator cannot occur inside text free of it. */
  lemma {:induction false} CharNoMatch(a: string, c: char, b: string)
    requires NoChar(a, c)
    ensures NoMatchBefore(a + [c] + b, [c], |a|)
  {
    var s := a + [c] + b;
    forall j: nat | j < |a|
      ensures !MatchAt(s, [c], j)
    {
      assert s[j] == a[j];
    }
  }

  /** `"\r\n"` cannot start inside text free of line feeds, not even at its
      last character. */
  lemma {:induction false} CrlfNoMatch(a: string, b: string)
    requires NoChar(a, '\n')
    ensures NoMatchBefore(a + "\r\n" + b, "\r\n", |a|)
  {
    var s := a + "\r\n" + b;
    forall j: nat | j < |a|
      ensures !MatchAt(s, "\r\n", j)
    {
      if j + 1 < |a| {
        assert s[j + 1] == a[j + 1];
      } else {
        assert s[j + 1] == '\r';
      }
      assert s[j..j + 2][1] == s[j + 1];
    }
  }

  /** Text free of line feeds contains no `"\r\n"`. */
  lemma {:induction false} CrlfNoMatchAll(s: string)
    requires NoChar(s, '\n')
    ensures NoMatchBefore(s, "\r\n", |s| + 1)
  {
    forall j: nat | j < |s| + 1
      ensures !MatchAt(s, "\r\n", j)
    {
      if j + 2 <= |s| {
        assert s[j..j + 2][1] == s[j + 1];
      }
    }
  }

  /** Text free of `c` contains no occurrence of `[c]`. */
  lemma {:induction false} CharNoMatchAll(s: string, c: char)
    requires NoChar(s, c)
    ensures NoMatchBefore(s, [c], |s| + 1)
  {
    forall j: nat | j < |s| + 1
      ensures !MatchAt(s, [c], j)
    {
      if j + 1 <= |s| {
        assert s[j..j + 1][0] == s[j];
      }
    }
  }

  /** Occurrences of `c` in `s`. */
  function Count(s: string, c: char): nat {
    if s == [] then 0 else (if s[0] == c then 1 else 0) + Count(s[1..], c)
  }

  lemma {:induction false} CountConcat(a: string, b: string, c: char)
    ensures Count(a + b, c) == Count(a, c) + Count(b, c)
  {
    if a != [] {
      assert (a + b)[0] == a[0];
      assert (a + b)[1..] == a[1..] + b;
      assert Count(a + b, c) == (if a[0] == c then 1 else 0) + Count(a[1..] + b, c);
      CountConcat(a[1..], b, c);
    } else {
      assert a + b == b;
    }
  }

  lemma {:induction false} CountNoChar(s: string, c: char)
    requires NoChar(s, c)
    ensures Count(s, c) == 0
  {
    if s != [] {
      CountNoChar(s[1..], c);
    }
  }

  /** Splitting on one character yields one more piece than there are
      occurrences of that character. */
  lemma {:induction false} SplitCharCount(s: string, c: char)
    ensures |Split(s, [c])| == Count(s, c) + 1
    decreases |s|
  {
    FindSpec(s, [c], 0);
    match Find(s, [c], 0)
    case None =>
      NoCharBefore(s, c, |s|);
      assert s[..|s|] == s;
      CountNoChar(s, c);
    case Some(i) =>
      var a, rest := s[..i], s[i + 1..];
      NoCharBefore(s, c, i);
      CharSplitsAt(s, c, i);
      CountNoChar(a, c);
      CountConcat(a, [c] + rest, c);
      CountCons(c, rest);
      SplitCharCount(rest, c);
  }

  /** No one-character match before `k` means no occurrence before `k`. */
  lemma {:induction false} NoCharBefore(s: string, c: char, k: nat)
    requires k <= |s|
    requires forall j: nat :: j < k ==> !MatchAt(s, [c], j)
    ensures NoChar(s[..k], c)
  {
    forall j | 0 <= j < k ensures s[..k][j] != c {
      assert !MatchAt(s, [c], j);
      assert s[j..j + 1] == [s[j]];
    }
  }

  /** A one-character match at `i` cuts the text around that character. */
  lemma {:induction false} CharSplitsAt(s: string, c: char, i: nat)
    requires MatchAt(s, [c], i)
    ensures s == s[..i] + ([c] + s[i + 1..])
  {
    assert s[i..i + 1] == [c];
    assert s == s[..i] + s[i..i + 1] + s[i + 1..];
  }

  lemma {:induction false} CountCons(c: char, rest: string)
    ensures Count([c] + rest, c) == 1 + Count(rest, c)
  {
    assert ([c] + rest)[1..] == rest;
  }

  /** A character absent from the text is absent from every piece. */
  lemma {:induction false} SplitKeepsNoChar(s: string, sep: string, c: char)
    requires 0 < |sep| && NoChar(s, c)
    ensures forall k :: 0 <= k < |Split(s, sep)| ==> NoChar(Split(s, sep)[k], c)
    decreases |s|
  {
    match Find(s, sep, 0)
    case None =>
    case Some(i) =>
      SplitKeepsNoChar(s[i + |sep|..], sep, c);
  }

  /** `BufRead::read_line`: everything up to and including the first line
      feed, or everything left when there is none (nothing at end of input).
      Returns the line and the bytes still unread. */
  function ReadLine(s: string): (r: (string, string))
    ensures |r.0| + |r.1| == |s|
    decreases |s|
  {
    if s == [] then ([], [])
    else if s[0] == '\n' then ("\n", s[1..])
    else
      var (line, rest) := ReadLine(s[1..]);
      ([s[0]] + line, rest)
  }

  /** The line read and the bytes left over make up the input. */
  lemma {:induction false} ReadLineSplits(s: string)
    ensures ReadLine(s).0 + ReadLine(s).1 == s
    decreases |s|
  {
    if s != [] && s[0] != '\n' {
      ReadLineSplits(s[1..]);
      assert s == [s[0]] + s[1..];
    }
  }

  /** The line read has no line feed before its last character, and ends in
      one unless the input ran out. */
  lemma {:induction false} ReadLineShape(s: string)
    ensures var (line, rest) := ReadLine(s);
            && (line != [] ==> NoChar(line[..|line| - 1], '\n'))
            && ((line != [] && line[|line| - 1] == '\n') || rest == [])
    decreases |s|
  {
    if s != [] && s[0] != '\n' {
      ReadLineShape(s[1..]);
      var (l, r) := ReadLine(s[1..]);
      var line := [s[0]] + l;
      if l != [] {
        assert line[..|line| - 1] == [s[0]] + l[..|l| - 1];
      }
    }
  }

  /** A line with no line feed of its own before its terminator is read
      whole, and exactly it is consumed. */
  lemma {:induction false} ReadLineOf(a: string, b: string)
    requires NoChar(a, '\n')
    ensures ReadLine(a + "\n" + b) == (a + "\n", b)
    decreases |a|
  {
    var s := a + "\n" + b;
    if a == [] {
      assert s == "\n" + b;
      assert s[1..] == b;
    } else {
      assert s[0] == a[0];
      assert s[1..] == a[1..] + "\n" + b;
      ReadLineOf(a[1..], b);
      assert [a[0]] + (a[1..] + "\n") == a + "\n";
    }
  }

  /** `ReadLine` is pinned down by its shape: any split of the text into a
      line with no earlier line feed that ends in one (or takes everything)
      is the one `ReadLine` makes. */
  lemma {:induction false} ReadLineUnique(s: string, line: string, rest: string)
    requires line + rest == s
    requires line != [] ==> NoChar(line[..|line| - 1], '\n')
    requires (line != [] && line[|line| - 1] == '\n') || rest == []
    ensures ReadLine(s) == (line, rest)
  {
    if line == [] {
      assert s == [];
    } else if line[|line| - 1] == '\n' {
      var a := line[..|line| - 1];
      assert line == a + "\n";
      assert s == a + "\n" + rest;
      ReadLineOf(a, rest);
    } else {
      assert rest == [] && s == line;
      ReadLineNoFeed(s);
    }
  }

  /** Text with no line feed is read as one line, to the end. */
  lemma {:induction false} ReadLineNoFeed(s: string)
    requires NoChar(s, '\n')
    ensures ReadLine(s) == (s, [])
    decreases |s|
  {
    if s != [] {
      ReadLineNoFeed(s[1..]);
      assert [s[0]] + s[1..] == s;
    }
  }

  /** A first character other than a line feed just rides along at the
      front of the first line. */
  lemma {:induction false} ReadLineCons(c: char, t: string)
    requires c != '\n'
    ensures ReadLine([c] + t) == ([c] + ReadLine(t).0, ReadLine(t).1)
  {
    assert ([c] + t)[1..] == t;
  }

  /** A line ending in `"\r\n"` is read whole. */
  lemma {:induction false} ReadLineCrlf(a: string, b: string)
    requires NoChar(a, '\n')
    ensures ReadLine(a + "\r\n" + b) == (a + "\r\n", b)
  {
    assert a + "\r\n" + b == (a + "\r") + "\n" + b;
    assert (a + "\r") + "\n" == a + "\r\n";
    ReadLineOf(a + "\r", b);
  }

  /** Regrouping `a ++ sep ++ b ++ sep ++ c` around its first separator. */
  lemma {:induction false} Regroup(a: string, sep: string, b: string, c: string)
    ensures a + sep + b + sep + c == a + sep + (b + sep + c)
  {
  }

  /** A non-empty sequence is its head followed by its tail. */
  lemma {:induction false} HeadTail<T>(s: seq<T>)
    requires s != []
    ensures [s[0]] + s[1..] == s
  {
  }

  /** Concatenation is associative. */
  lemma {:induction false} Assoc<T>(a: seq<T>, b: seq<T>, c: seq<T>)
    ensures a + b + c == a + (b + c)
  {
  }
}
