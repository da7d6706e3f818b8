/**
 Splitting text into lines the way Go's strings.Split(s, "\n") does, its
 inverse strings.Join(pieces, "\n"), and the removal of one trailing
 carriage return from a CRLF line.
 */
module Lines {

  /** The number of newline characters in s (strings.Count(s, "\n")). */
  function CountNewlines(s: string): (n: nat)
    ensures n <= |s|
    ensures n == 0 <==> '\n' !in s
  {
    if |s| == 0 then 0
    else (if s[0] == '\n' then 1 else 0) + CountNewlines(s[1..])
  }

  /** The count is exact: the number of occurrences of the newline character. */
  lemma {:induction false} CountNewlinesExact(s: string)
    ensures CountNewlines(s) == multiset(s)['\n']
  {
    if |s| > 0 {
      CountNewlinesExact(s[1..]);
      assert s == [s[0]] + s[1..];
    }
  }

  /**
   The pieces of s between newlines. There is always one more piece than
   there are newlines, so the empty string has one empty piece.
   */
  function Split(s: string): (pieces: seq<string>)
    ensures |pieces| == CountNewlines(s) + 1
    ensures forall k :: 0 <= k < |pieces| ==> '\n' !in pieces[k]
    ensures forall k, c :: 0 <= k < |pieces| && c in pieces[k] ==> c in s
  {
    if |s| == 0 then [""]
    else
      var rest := Split(s[1..]);
      assert forall c :: c in s[1..] ==> c in s;
      if s[0] == '\n' then [""] + rest
      else [[s[0]] + rest[0]] + rest[1..]
  }

  /** The pieces joined with a newline between each two. */
  function Join(pieces: seq<string>): string {
    if |pieces| == 0 then ""
    else if |pieces| == 1 then pieces[0]
    else pieces[0] + "\n" + Join(pieces[1..])
  }

  /** Joining the pieces of a split gives back the original text. */
  lemma {:induction false} JoinSplit(s: string)
    ensures Join(Split(s)) == s
  {
    if |s| > 0 {
      var rest := Split(s[1..]);
      JoinSplit(s[1..]);
      if s[0] == '\n' {
        assert ([""] + rest)[1..] == rest;
        assert s == [s[0]] + s[1..];
      } else {
        var first := [s[0]] + rest[0];
        var pieces := [first] + rest[1..];
        if |rest| == 1 {
          assert s == [s[0]] + s[1..];
        } else {
          assert pieces[1..] == rest[1..];
          assert Join(rest) == rest[0] + "\n" + Join(rest[1..]);
          assert s == [s[0]] + s[1..];
        }
      }
    }
  }

  /** Splitting text that starts with a newline-free line. */
  lemma {:induction false} SplitAfterLine(a: string, b: string)
    requires '\n' !in a
    ensures Split(a + "\n" + b) == [a] + Split(b)
  {
    var s := a + "\n" + b;
    if |a| > 0 {
      assert a[0] in a;
      assert s[0] == a[0] && s[0] != '\n';
      assert s[1..] == a[1..] + "\n" + b;
      SplitAfterLine(a[1..], b);
      var rest := Split(s[1..]);
      assert rest == [a[1..]] + Split(b);
      assert rest[0] == a[1..] && rest[1..] == Split(b);
      assert Split(s) == [[s[0]] + rest[0]] + rest[1..];
      assert [a[0]] + a[1..] == a;
    } else {
      assert a + "\n" + b == "\n" + b;
      assert ("\n" + b)[1..] == b;
    }
  }

  /** A single newline-free line splits into itself. */
  lemma {:induction false} SplitOneLine(a: string)
    requires '\n' !in a
    ensures Split(a) == [a]
  {
    if |a| > 0 {
      SplitOneLine(a[1..]);
      assert [a[0]] + a[1..] == a;
    }
  }

  /** Splitting joined newline-free pieces gives the pieces back. */
  lemma {:induction false} SplitJoin(pieces: seq<string>)
    requires |pieces| > 0
    requires forall k :: 0 <= k < |pieces| ==> '\n' !in pieces[k]
    ensures Split(Join(pieces)) == pieces
  {
    if |pieces| == 1 {
      SplitOneLine(pieces[0]);
    } else {
      SplitJoin(pieces[1..]);
      SplitAfterLine(pieces[0], Join(pieces[1..]));
      assert [pieces[0]] + pieces[1..] == pieces;
    }
  }

  /** The line ends with a carriage return. */
  predicate EndsWithCR(line: string) {
    |line| > 0 && line[|line| - 1] == '\r'
  }

  /** The line with one trailing carriage return removed, if it has one (strings.TrimSuffix(line, "\r")). */
  function TrimCR(line: string): (t: string)
    ensures EndsWithCR(line) ==> t + "\r" == line
    ensures !EndsWithCR(line) ==> t == line
  {
    if EndsWithCR(line) then line[..|line| - 1] else line
  }
}
