/**
 * The parts of Go's `strings` package the admission gate relies on, on
 * `seq<char>`: `strings.ToLower` (approximated on ASCII letters) and
 * `strings.Split` with the one-character separator "/".
 */
module GoStrings {

  const Slash: char := '/'

  /** ASCII lower-casing of one character; every other character is kept. */
  function LowerChar(c: char): char
  {
    if 'A' <= c <= 'Z' then (c as int + 32) as char else c
  }

  /** `strings.ToLower`, character by character. */
  function Lower(s: string): string
  {
    seq(|s|, i requires 0 <= i < |s| => LowerChar(s[i]))
  }

  /** No upper-case ASCII letter occurs in `s`. */
  predicate IsLowerCase(s: string)
  {
    forall i :: 0 <= i < |s| ==> !('A' <= s[i] <= 'Z')
  }

  lemma LowerIsLowerCase(s: string)
    ensures IsLowerCase(Lower(s))
    ensures |Lower(s)| == |s|
  {
  }

  /** Lower-casing a string that has no upper-case letter changes nothing. */
  lemma LowerOfLowerCase(s: string)
    requires IsLowerCase(s)
    ensures Lower(s) == s
  {
  }

  /** Lower-casing is idempotent. */
  lemma LowerIdempotent(s: string)
    ensures Lower(Lower(s)) == Lower(s)
  {
    LowerIsLowerCase(s);
    LowerOfLowerCase(Lower(s));
  }

  /** Lower-casing distributes over concatenation. */
  lemma LowerConcat(a: string, b: string)
    ensures Lower(a + b) == Lower(a) + Lower(b)
  {
  }

  /** Lower-casing neither creates nor removes a separator, at any position. */
  lemma LowerKeepsSlashes(s: string)
    ensures forall i :: 0 <= i < |s| ==> (Lower(s)[i] == Slash <==> s[i] == Slash)
    ensures (Slash in Lower(s)) <==> (Slash in s)
  {
    forall i | 0 <= i < |s|
      ensures Lower(s)[i] == Slash <==> s[i] == Slash
    {
    }
    if Slash in s {
      var i :| 0 <= i < |s| && s[i] == Slash;
      assert Lower(s)[i] == Slash;
    }
    if Slash in Lower(s) {
      var i :| 0 <= i < |Lower(s)| && Lower(s)[i] == Slash;
      assert s[i] == Slash;
    }
  }

  /** The empty string is the only string that lower-cases to the empty string. */
  lemma LowerEmpty(s: string)
    ensures (Lower(s) == "") <==> (s == "")
  {
    assert |Lower(s)| == |s|;
  }

  /** Position of the first separator in `s`, or `|s|` when there is none. */
  function IndexOfSlash(s: string): (i: nat)
    ensures i <= |s|
    ensures Slash !in s[..i]
    ensures i < |s| ==> s[i] == Slash
    ensures i == |s| <==> Slash !in s
  {
    if s == [] then 0
    else if s[0] == Slash then 0
    else
      var j := IndexOfSlash(s[1..]);
      assert s[..1 + j] == [s[0]] + s[1..][..j];
      1 + j
  }

  /** `strings.Join(parts, "/")`. */
  function Join(parts: seq<string>): string
    requires |parts| >= 1
  {
    if |parts| == 1 then parts[0] else parts[0] + [Slash] + Join(parts[1..])
  }

  /**
   * `strings.Split(s, "/")`: the pieces between separators, always at least
   * one (the empty string splits into one empty piece), none of them holding
   * a separator, and joining them gives back `s`.
   */
  function Split(s: string): (parts: seq<string>)
    ensures |parts| >= 1
    ensures forall k :: 0 <= k < |parts| ==> Slash !in parts[k]
    ensures Join(parts) == s
    decreases |s|
  {
    var i := IndexOfSlash(s);
    if i == |s| then [s]
    else
      var rest := Split(s[i + 1..]);
      var parts := [s[..i]] + rest;
      assert parts[1..] == rest;
      assert s == s[..i] + [Slash] + s[i + 1..];
      parts
  }

  /** In `a + "/" + b` with no separator in `a`, the first separator follows `a`. */
  lemma IndexOfSlashAfterPiece(a: string, b: string)
    requires Slash !in a
    ensures IndexOfSlash(a + [Slash] + b) == |a|
  {
    var s := a + [Slash] + b;
    assert s[|a|] == Slash;
    assert s[..|a|] == a;
  }

  /** Splitting a separator-free piece, a separator and a rest gives the piece, then the rest's pieces. */
  lemma SplitCons(a: string, rest: string)
    requires Slash !in a
    ensures Split(a + [Slash] + rest) == [a] + Split(rest)
  {
    var s := a + [Slash] + rest;
    IndexOfSlashAfterPiece(a, rest);
    assert s[..|a|] == a;
    assert s[|a| + 1..] == rest;
  }

  /** Splitting a separator-free piece gives that piece alone. */
  lemma SplitOne(a: string)
    requires Slash !in a
    ensures Split(a) == [a]
  {
  }

  /** Splitting undoes joining, when no piece holds a separator. */
  lemma {:induction false} SplitJoin(parts: seq<string>)
    requires |parts| >= 1
    requires forall k :: 0 <= k < |parts| ==> Slash !in parts[k]
    ensures Split(Join(parts)) == parts
    decreases |parts|
  {
    if |parts| == 1 {
      SplitOne(parts[0]);
    } else {
      var tail := parts[1..];
      SplitJoin(tail);
      SplitCons(parts[0], Join(tail));
      assert parts == [parts[0]] + tail;
    }
  }

  /** Joining four pieces puts a separator between each two. */
  lemma JoinFour(a: string, b: string, c: string, d: string)
    ensures Join([a, b, c, d]) == a + [Slash] + (b + [Slash] + (c + [Slash] + d))
  {
    assert [c, d][1..] == [d];
    assert Join([c, d]) == c + [Slash] + d;
    assert [b, c, d][1..] == [c, d];
    assert Join([b, c, d]) == b + [Slash] + Join([c, d]);
    assert [a, b, c, d][1..] == [b, c, d];
  }

  /** Joining five pieces puts a separator between each two. */
  lemma JoinFive(a: string, b: string, c: string, d: string, e: string)
    ensures Join([a, b, c, d, e]) == a + [Slash] + (b + [Slash] + (c + [Slash] + (d + [Slash] + e)))
  {
    assert [a, b, c, d, e][1..] == [b, c, d, e];
    JoinFour(b, c, d, e);
  }

  /** Splitting four separator-free pieces, joined right to left, gives them back. */
  lemma SplitFourNested(a: string, b: string, c: string, d: string)
    requires Slash !in a && Slash !in b && Slash !in c && Slash !in d
    ensures Split(a + [Slash] + (b + [Slash] + (c + [Slash] + d))) == [a, b, c, d]
  {
    JoinFour(a, b, c, d);
    SplitJoin([a, b, c, d]);
  }

  /** Splitting five separator-free pieces, joined right to left, gives them back. */
  lemma SplitFiveNested(a: string, b: string, c: string, d: string, e: string)
    requires Slash !in a && Slash !in b && Slash !in c && Slash !in d && Slash !in e
    ensures Split(a + [Slash] + (b + [Slash] + (c + [Slash] + (d + [Slash] + e)))) == [a, b, c, d, e]
  {
    JoinFive(a, b, c, d, e);
    SplitJoin([a, b, c, d, e]);
  }

  lemma RegroupFour(a: string, b: string, c: string, d: string)
    ensures a + [Slash] + b + [Slash] + c + [Slash] + d == a + [Slash] + (b + [Slash] + (c + [Slash] + d))
  {
  }

  /** Splitting four separator-free pieces joined by "/" gives them back. */
  lemma SplitFour(a: string, b: string, c: string, d: string)
    requires Slash !in a && Slash !in b && Slash !in c && Slash !in d
    ensures Split(a + [Slash] + b + [Slash] + c + [Slash] + d) == [a, b, c, d]
  {
    SplitFourNested(a, b, c, d);
    RegroupFour(a, b, c, d);
  }

  lemma RegroupFive(a: string, b: string, c: string, d: string, e: string)
    ensures a + [Slash] + b + [Slash] + c + [Slash] + d + [Slash] + e
         == a + [Slash] + (b + [Slash] + (c + [Slash] + (d + [Slash] + e)))
  {
  }

  /** Splitting five separator-free pieces joined by "/" gives them back. */
  lemma SplitFive(a: string, b: string, c: string, d: string, e: string)
    requires Slash !in a && Slash !in b && Slash !in c && Slash !in d && Slash !in e
    ensures Split(a + [Slash] + b + [Slash] + c + [Slash] + d + [Slash] + e) == [a, b, c, d, e]
  {
    SplitFiveNested(a, b, c, d, e);
    RegroupFive(a, b, c, d, e);
  }

  /** Splitting text around a separator gives the pieces of the left part followed by those of the right part. */
  lemma {:induction false} SplitAppend(x: string, y: string)
    ensures Split(x + [Slash] + y) == Split(x) + Split(y)
    decreases |x|
  {
    var i := IndexOfSlash(x);
    if i == |x| {
      SplitOne(x);
      SplitCons(x, y);
    } else {
      var head, tail := x[..i], x[i + 1..];
      assert x == head + [Slash] + tail;
      assert x + [Slash] + y == head + [Slash] + (tail + [Slash] + y);
      SplitCons(head, tail + [Slash] + y);
      SplitAppend(tail, y);
      SplitCons(head, tail);
      ConcatAssociates([head], Split(tail), Split(y));
    }
  }

  /** Concatenation of sequences is associative. */
  lemma ConcatAssociates<T>(a: seq<T>, b: seq<T>, c: seq<T>)
    ensures a + (b + c) == a + b + c
  {
  }

  /** Four parts joined by "/", of which all but the second are separator-free, split around the second's pieces. */
  lemma SplitAroundSecond(a: string, b: string, c: string, d: string)
    requires Slash !in a && Slash !in c && Slash !in d
    ensures Split(a + [Slash] + b + [Slash] + c + [Slash] + d) == [a] + Split(b) + [c, d]
  {
    var rest := c + [Slash] + d;
    assert Split(rest) == [c, d] by {
      SplitOne(d);
      SplitCons(c, d);
    }
    var tail := b + [Slash] + rest;
    assert Split(tail) == Split(b) + [c, d] by {
      SplitAppend(b, rest);
    }
    assert Split(a + [Slash] + tail) == [a] + Split(tail) by {
      SplitCons(a, tail);
    }
    RegroupFour(a, b, c, d);
    ConcatAssociates([a], Split(b), [c, d]);
  }

  /**
   * When such a text splits into five pieces, its first, third and fourth
   * parts are the first and last two pieces, and its second part is the
   * second and third pieces around a separator.
   */
  lemma SplitAroundSecondIntoFive(a: string, b: string, c: string, d: string, p: seq<string>)
    requires Slash !in a && Slash !in c && Slash !in d
    requires |p| == 5 && Split(a + [Slash] + b + [Slash] + c + [Slash] + d) == p
    ensures a == p[0] && b == p[1] + [Slash] + p[2] && c == p[3] && d == p[4]
  {
    SplitAroundSecond(a, b, c, d);
    var parts := Split(b);
    assert p == [a] + parts + [c, d];
    assert |parts| == 2;
    assert parts == p[1..3];
    assert parts[1..] == [p[2]];
    assert b == Join(parts);
  }

  /** `s` holds exactly one separator. */
  predicate OneSlash(s: string)
  {
    exists i :: 0 <= i < |s| && s[i] == Slash && Slash !in s[..i] && Slash !in s[i + 1..]
  }

  /** `strings.Split(s, "/")` has exactly two pieces iff `s` holds exactly one separator. */
  lemma SplitInTwo(s: string)
    ensures |Split(s)| == 2 <==> OneSlash(s)
    ensures OneSlash(s) ==>
      var i := IndexOfSlash(s);
      i < |s| && Split(s) == [s[..i], s[i + 1..]]
  {
    var i := IndexOfSlash(s);
    if i < |s| {
      var rest := s[i + 1..];
      assert Split(s) == [s[..i]] + Split(rest);
      if Slash in rest {
        assert |Split(rest)| >= 2;
        var j := IndexOfSlash(rest);
        assert s[i + 1 + j] == Slash;
        forall k | 0 <= k < |s| && s[k] == Slash && Slash !in s[..k]
          ensures Slash in s[k + 1..]
        {
          assert s[k + 1..][j] == Slash;
        }
      } else {
        assert Split(rest) == [rest];
        assert 0 <= i < |s| && s[i] == Slash && Slash !in s[..i] && Slash !in s[i + 1..];
      }
    } else {
      assert Split(s) == [s];
    }
  }

  /** The first piece of `strings.Split(s, "/")` is the text before the first separator. */
  lemma SplitFirstPiece(s: string)
    ensures Split(s)[0] == s[..IndexOfSlash(s)]
  {
  }
}
