/**
 * The java.lang.String operations that the monitor code relies on, over
 * strings of Unicode code points, with the unchecked exceptions they throw.
 */
module JavaString {
  import opened Wrappers

  /** The unchecked exceptions the modelled code can raise. */
  datatype JavaException =
    | ArrayIndexOutOfBounds   // an index past the end of the array split returns
    | StringIndexOutOfBounds  // substring with bounds out of order or range
    | IllegalArgument         // Enum.valueOf on a name that is no constant

  // ---------------------------------------------------------------------
  // contains, indexOf, substring
  // ---------------------------------------------------------------------

  /** s.startsWith(t), compared character by character. */
  predicate StartsWith(s: string, t: string)
    decreases |t|
  {
    t == [] || (s != [] && s[0] == t[0] && StartsWith(s[1..], t[1..]))
  }

  /** startsWith is the prefix relation. */
  lemma {:induction false} StartsWithIffPrefix(s: string, t: string)
    ensures StartsWith(s, t) <==> t <= s
    decreases |t|
  {
    if t != [] && s != [] {
      StartsWithIffPrefix(s[1..], t[1..]);
      if t[1..] <= s[1..] && s[0] == t[0] {
        assert t == [t[0]] + t[1..] && s == [s[0]] + s[1..];
      }
    }
  }

  /** t is no prefix of u when they differ at some position of t. */
  lemma NotPrefixAt(t: string, u: string, k: int)
    requires 0 <= k < |t| && (k >= |u| || u[k] != t[k])
    ensures !(t <= u)
  {
  }

  /** s.contains(t) */
  predicate Contains(s: string, t: string)
    decreases |s|
  {
    StartsWith(s, t) || (|s| > 0 && Contains(s[1..], t))
  }

  /** contains holds exactly when t occurs at some position of s. */
  lemma {:induction false} ContainsIffOccurs(s: string, t: string)
    ensures Contains(s, t) <==> exists i :: 0 <= i <= |s| && t <= s[i..]
    decreases |s|
  {
    assert s[0..] == s;
    StartsWithIffPrefix(s, t);
    if |s| > 0 {
      ContainsIffOccurs(s[1..], t);
      forall i | 1 <= i <= |s|
        ensures s[i..] == s[1..][i - 1..]
      {
      }
      if Contains(s[1..], t) {
        var i :| 0 <= i <= |s[1..]| && t <= s[1..][i..];
        assert t <= s[i + 1..];
      }
    }
  }

  /** A one-character string occurs in s exactly when that character does. */
  lemma {:induction false} ContainsChar(s: string, ch: char)
    ensures Contains(s, [ch]) <==> ch in s
    decreases |s|
  {
    StartsWithIffPrefix(s, [ch]);
    if |s| > 0 {
      ContainsChar(s[1..], ch);
      assert s == [s[0]] + s[1..];
    }
  }

  /** A string with a character that s lacks does not occur in s. */
  lemma MissingCharNotContained(s: string, t: string, ch: char)
    requires ch in t && ch !in s
    ensures !Contains(s, t)
  {
    ContainsIffOccurs(s, t);
    var k :| 0 <= k < |t| && t[k] == ch;
    forall i | 0 <= i <= |s|
      ensures !(t <= s[i..])
    {
      if k < |s[i..]| {
        assert s[i..][k] == s[i + k];
      }
      NotPrefixAt(t, s[i..], k);
    }
  }

  /** s.indexOf(ch): the first index of ch, or -1. */
  function IndexOf(s: string, ch: char): (r: int)
    ensures -1 <= r < |s|
    ensures r == -1 <==> ch !in s
    ensures r >= 0 ==> s[r] == ch && ch !in s[..r]
    decreases |s|
  {
    if |s| == 0 then -1
    else if s[0] == ch then 0
    else
      var k := IndexOf(s[1..], ch);
      assert s[1..][..k + 1] == s[1..k + 2] by { }
      if k == -1 then -1 else k + 1
  }

  /** The first occurrence of ch is where ch occurs with none before it. */
  lemma IndexOfAt(s: string, i: int, ch: char)
    requires 0 <= i < |s| && s[i] == ch && ch !in s[..i]
    ensures IndexOf(s, ch) == i
  {
  }

  /** A character that s lacks, each suffix of s lacks too. */
  lemma AbsentFromSuffix(s: string, i: int, ch: char)
    requires 0 <= i <= |s| && ch !in s
    ensures ch !in s[i..]
  {
    assert forall k :: 0 <= k < |s| - i ==> s[i..][k] == s[i + k];
  }

  /** A character that s lacks, each slice of s lacks too. */
  lemma AbsentFromSlice(s: string, i: int, j: int, ch: char)
    requires 0 <= i <= j <= |s| && ch !in s
    ensures ch !in s[i..j]
  {
    assert forall k :: 0 <= k < j - i ==> s[i..j][k] == s[i + k];
  }

  /** s.substring(begin, end) */
  function Substring(s: string, begin: int, end: int): Result<string, JavaException>
  {
    if 0 <= begin <= end <= |s| then Success(s[begin..end]) else Failure(StringIndexOutOfBounds)
  }

  // ---------------------------------------------------------------------
  // split with a one-character delimiter
  // ---------------------------------------------------------------------

  /** The pieces of s between occurrences of c, empty ones included: one more piece than s has c's. */
  function Pieces(s: string, c: char): (r: seq<string>)
    ensures |r| >= 1
    decreases |s|
  {
    if s == [] then [[]]
    else
      var rest := Pieces(s[1..], c);
      if s[0] == c then [[]] + rest else [[s[0]] + rest[0]] + rest[1..]
  }

  /** No piece contains the delimiter. */
  lemma {:induction false} PiecesHaveNoDelimiter(s: string, c: char)
    ensures forall i :: 0 <= i < |Pieces(s, c)| ==> c !in Pieces(s, c)[i]
    decreases |s|
  {
    if s != [] {
      PiecesHaveNoDelimiter(s[1..], c);
      var rest := Pieces(s[1..], c);
      if s[0] != c {
        assert forall i :: 1 <= i < |Pieces(s, c)| ==> Pieces(s, c)[i] == rest[i];
      } else {
        assert forall i :: 1 <= i < |Pieces(s, c)| ==> Pieces(s, c)[i] == rest[i - 1];
      }
    }
  }

  /** String.join of parts with c between them. */
  function Join(parts: seq<string>, c: char): string
    decreases |parts|
  {
    if parts == [] then []
    else if |parts| == 1 then parts[0]
    else parts[0] + [c] + Join(parts[1..], c)
  }

  /** Joining the pieces again gives back the string. */
  lemma {:induction false} JoinPieces(s: string, c: char)
    ensures Join(Pieces(s, c), c) == s
    decreases |s|
  {
    if s != [] {
      var rest := Pieces(s[1..], c);
      JoinPieces(s[1..], c);
      if s[0] == c {
        assert ([[]] + rest)[1..] == rest;
      } else {
        var p := [[s[0]] + rest[0]] + rest[1..];
        if |rest| == 1 {
          assert p == [[s[0]] + rest[0]];
        } else {
          assert p[1..] == rest[1..];
          assert rest == [rest[0]] + rest[1..];
        }
      }
    }
  }

  /** A piece followed by the delimiter splits off as the first piece. */
  lemma {:induction false} PiecesOfFront(a: string, c: char, rest: string)
    requires c !in a
    ensures Pieces(a + [c] + rest, c) == [a] + Pieces(rest, c)
    decreases |a|
  {
    var s := a + [c] + rest;
    if a == [] {
      assert s[1..] == rest;
    } else {
      assert s[1..] == a[1..] + [c] + rest;
      PiecesOfFront(a[1..], c, rest);
      assert [a[0]] + a[1..] == a;
    }
  }

  /** Pieces of a string without the delimiter: the string itself. */
  lemma {:induction false} PiecesWithoutDelimiter(a: string, c: char)
    requires c !in a
    ensures Pieces(a, c) == [a]
    decreases |a|
  {
    if a != [] {
      PiecesWithoutDelimiter(a[1..], c);
      assert [a[0]] + a[1..] == a;
    }
  }

  /** Splitting a join of delimiter-free parts gives back the parts. */
  lemma {:induction false} PiecesOfJoin(parts: seq<string>, c: char)
    requires |parts| >= 1
    requires forall i :: 0 <= i < |parts| ==> c !in parts[i]
    ensures Pieces(Join(parts, c), c) == parts
    decreases |parts|
  {
    if |parts| == 1 {
      PiecesWithoutDelimiter(parts[0], c);
    } else {
      PiecesOfJoin(parts[1..], c);
      PiecesOfFront(parts[0], c, Join(parts[1..], c));
      assert [parts[0]] + parts[1..] == parts;
    }
  }

  /** When c occurs in s, the first piece is what precedes its first occurrence and the rest are the pieces after it. */
  lemma {:induction false} PiecesAtFirst(s: string, c: char)
    requires c in s
    ensures Pieces(s, c) == [s[..IndexOf(s, c)]] + Pieces(s[IndexOf(s, c) + 1..], c)
  {
    var i := IndexOf(s, c);
    assert s == s[..i] + [c] + s[i + 1..];
    PiecesOfFront(s[..i], c, s[i + 1..]);
  }

  /** Every piece is empty exactly when s consists of c's only. */
  lemma {:induction false} PiecesAllEmpty(s: string, c: char)
    ensures (forall k :: 0 <= k < |Pieces(s, c)| ==> Pieces(s, c)[k] == [])
        <==> (forall j :: 0 <= j < |s| ==> s[j] == c)
    decreases |s|
  {
    if s != [] {
      PiecesAllEmpty(s[1..], c);
      var rest := Pieces(s[1..], c);
      var p := Pieces(s, c);
      if s[0] == c {
        assert p == [[]] + rest;
        assert (forall k :: 0 <= k < |p| ==> p[k] == []) <==> (forall k :: 0 <= k < |rest| ==> rest[k] == []) by {
          assert forall k :: 1 <= k < |p| ==> p[k] == rest[k - 1];
          assert forall k :: 0 <= k < |rest| ==> rest[k] == p[k + 1];
        }
        assert (forall j :: 0 <= j < |s| ==> s[j] == c) <==> (forall j :: 0 <= j < |s[1..]| ==> s[1..][j] == c) by {
          assert forall j :: 1 <= j < |s| ==> s[j] == s[1..][j - 1];
          assert forall j :: 0 <= j < |s[1..]| ==> s[1..][j] == s[j + 1];
        }
      } else {
        assert p[0] != [];
      }
    }
  }

  /** Drops trailing empty strings from an array of pieces. */
  function DropTrailingEmpty(parts: seq<string>): (r: seq<string>)
    ensures |r| <= |parts| && r == parts[..|r|]
    ensures r != [] ==> r[|r| - 1] != []
    decreases |parts|
  {
    if parts != [] && parts[|parts| - 1] == [] then DropTrailingEmpty(parts[..|parts| - 1]) else parts
  }

  /** Only empty strings are dropped. */
  lemma {:induction false} DropTrailingDropsEmpty(parts: seq<string>)
    ensures forall i :: |DropTrailingEmpty(parts)| <= i < |parts| ==> parts[i] == []
    decreases |parts|
  {
    if parts != [] && parts[|parts| - 1] == [] {
      var front := parts[..|parts| - 1];
      DropTrailingDropsEmpty(front);
      assert forall i :: |DropTrailingEmpty(parts)| <= i < |front| ==> parts[i] == front[i];
    }
  }

  /** s.split(c) for a delimiter that is no regular-expression metacharacter: limit 0, so trailing empty strings are removed; when c does not occur the result is [s]. */
  function Split(s: string, c: char): seq<string>
  {
    if c !in s then [s] else DropTrailingEmpty(Pieces(s, c))
  }

  /** No element of the split contains the delimiter. */
  lemma SplitHasNoDelimiter(s: string, c: char)
    ensures forall i :: 0 <= i < |Split(s, c)| ==> c !in Split(s, c)[i]
  {
    PiecesHaveNoDelimiter(s, c);
  }

  /** a[i] on an array of strings. */
  function Element(a: seq<string>, i: nat): Result<string, JavaException>
  {
    if i < |a| then Success(a[i]) else Failure(ArrayIndexOutOfBounds)
  }

  /** s contains c and, after its first c, some other character. */
  predicate HasSecondField(s: string, c: char)
  {
    c in s && exists j :: IndexOf(s, c) < j < |s| && s[j] != c
  }

  /** The text between the first and the second c of s, or to the end when there is one c only. */
  function SecondField(s: string, c: char): string
    requires c in s
  {
    var rest := s[IndexOf(s, c) + 1..];
    if c in rest then rest[..IndexOf(rest, c)] else rest
  }

  /** After dropping trailing empty strings at least two remain exactly when some piece after the first is non-empty. */
  lemma DropTrailingKeepsTwo(parts: seq<string>)
    ensures |DropTrailingEmpty(parts)| >= 2 <==> exists k :: 1 <= k < |parts| && parts[k] != []
    ensures |DropTrailingEmpty(parts)| >= 2 ==> DropTrailingEmpty(parts)[1] == parts[1]
  {
    var r := DropTrailingEmpty(parts);
    DropTrailingDropsEmpty(parts);
    if |r| >= 2 {
      assert parts[|r| - 1] == r[|r| - 1];
    }
  }

  /** Some piece is non-empty. */
  predicate SomeNonEmpty(pieces: seq<string>)
  {
    exists k :: 0 <= k < |pieces| && pieces[k] != []
  }

  /** Some character of t is not c. */
  predicate NotOnly(t: string, c: char)
  {
    exists j :: 0 <= j < |t| && t[j] != c
  }

  /** The pieces of t are not all empty exactly when t is not made of c's only. */
  lemma SomeNonEmptyPieces(t: string, c: char)
    ensures SomeNonEmpty(Pieces(t, c)) <==> NotOnly(t, c)
  {
    PiecesAllEmpty(t, c);
  }

  /** The pieces after the first one are the pieces of the text after the first c. */
  lemma SplitTail(s: string, c: char)
    requires c in s
    ensures var t := s[IndexOf(s, c) + 1..];
      (|Split(s, c)| >= 2 <==> SomeNonEmpty(Pieces(t, c)))
      && (|Split(s, c)| >= 2 ==> Split(s, c)[1] == Pieces(t, c)[0])
  {
    var t := s[IndexOf(s, c) + 1..];
    PiecesAtFirst(s, c);
    DropTrailingCons(s[..IndexOf(s, c)], Pieces(t, c));
  }

  /** Dropping trailing empty strings after a first element keeps two exactly when one of the rest is non-empty. */
  lemma DropTrailingCons(first: string, rest: seq<string>)
    ensures |DropTrailingEmpty([first] + rest)| >= 2 <==> SomeNonEmpty(rest)
    ensures |DropTrailingEmpty([first] + rest)| >= 2 ==> DropTrailingEmpty([first] + rest)[1] == rest[0]
  {
    var parts := [first] + rest;
    DropTrailingKeepsTwo(parts);
    if |DropTrailingEmpty(parts)| >= 2 {
      var k :| 1 <= k < |parts| && parts[k] != [];
      assert rest[k - 1] == parts[k];
    }
    if exists k :: 0 <= k < |rest| && rest[k] != [] {
      var k :| 0 <= k < |rest| && rest[k] != [];
      assert parts[k + 1] == rest[k];
    }
  }

  /** A character other than c after the first c is one of the text after it. */
  lemma SecondFieldWitness(s: string, c: char, j: int)
    requires c in s && IndexOf(s, c) < j < |s| && s[j] != c
    ensures var t := s[IndexOf(s, c) + 1..];
      0 <= j - IndexOf(s, c) - 1 < |t| && t[j - IndexOf(s, c) - 1] != c
  {
  }

  /** A character other than c in the text after the first c is one of s. */
  lemma TailWitness(s: string, c: char, j: int)
    requires c in s
    requires var t := s[IndexOf(s, c) + 1..]; 0 <= j < |t| && t[j] != c
    ensures IndexOf(s, c) < IndexOf(s, c) + 1 + j < |s| && s[IndexOf(s, c) + 1 + j] != c
  {
  }

  /** Something other than c follows the first c exactly when the text after it is not all c's. */
  lemma SecondFieldExists(s: string, c: char)
    requires c in s
    ensures var t := s[IndexOf(s, c) + 1..];
      HasSecondField(s, c) <==> NotOnly(t, c)
  {
    if HasSecondField(s, c) {
      SecondFieldInTail(s, c);
    }
    if NotOnly(s[IndexOf(s, c) + 1..], c) {
      TailHasSecondField(s, c);
    }
  }

  /** A character other than c after the first c lies in the text after it. */
  lemma SecondFieldInTail(s: string, c: char)
    requires HasSecondField(s, c)
    ensures NotOnly(s[IndexOf(s, c) + 1..], c)
  {
    var j :| IndexOf(s, c) < j < |s| && s[j] != c;
    SecondFieldWitness(s, c, j);
  }

  /** A character other than c in the text after the first c makes a second field. */
  lemma TailHasSecondField(s: string, c: char)
    requires c in s && NotOnly(s[IndexOf(s, c) + 1..], c)
    ensures HasSecondField(s, c)
  {
    var t := s[IndexOf(s, c) + 1..];
    var j :| 0 <= j < |t| && t[j] != c;
    TailWitness(s, c, j);
  }

  /** The first piece of t is t up to its first c. */
  lemma FirstPiece(t: string, c: char)
    ensures Pieces(t, c)[0] == if c in t then t[..IndexOf(t, c)] else t
  {
    if c in t {
      PiecesAtFirst(t, c);
    } else {
      PiecesWithoutDelimiter(t, c);
    }
  }

  /** s.split(c) has a second element exactly when something other than c follows the first c. */
  lemma SplitHasSecond(s: string, c: char)
    ensures |Split(s, c)| >= 2 <==> HasSecondField(s, c)
  {
    if c in s {
      SplitTail(s, c);
      SomeNonEmptyPieces(s[IndexOf(s, c) + 1..], c);
      SecondFieldExists(s, c);
    }
  }

  /** The second element of s.split(c), when there is one, is the text between the first and the next c. */
  lemma SplitSecondValue(s: string, c: char)
    requires |Split(s, c)| >= 2
    ensures c in s && Split(s, c)[1] == SecondField(s, c)
  {
    assert c in s;
    SplitTail(s, c);
    FirstPieceAfter(s, c);
  }

  /** The first piece of the text after the first c is the second field. */
  lemma FirstPieceAfter(s: string, c: char)
    requires c in s
    ensures Pieces(s[IndexOf(s, c) + 1..], c)[0] == SecondField(s, c)
  {
    FirstPiece(s[IndexOf(s, c) + 1..], c);
  }

  /** s.split(c)[1] exists exactly when something other than c follows the first c, and it is the text up to the next c. */
  lemma SplitSecond(s: string, c: char)
    ensures |Split(s, c)| >= 2 <==> HasSecondField(s, c)
    ensures |Split(s, c)| >= 2 ==> Split(s, c)[1] == SecondField(s, c)
  {
    SplitHasSecond(s, c);
    if |Split(s, c)| >= 2 {
      SplitSecondValue(s, c);
    }
  }

  /** split(c)[1]: the text between the first and the second c, or ArrayIndexOutOfBoundsException when nothing but c's follow the first c. */
  lemma SecondElement(s: string, c: char)
    ensures Element(Split(s, c), 1) ==
      if HasSecondField(s, c) then Success(SecondField(s, c)) else Failure(ArrayIndexOutOfBounds)
  {
    SplitSecond(s, c);
  }

  // ---------------------------------------------------------------------
  // trim
  // ---------------------------------------------------------------------

  /** The leading part of trim: drops characters at or below U+0020 from the front. */
  function TrimLeading(s: string): (r: string)
    ensures |r| <= |s|
    decreases |s|
  {
    if s != [] && s[0] <= ' ' then TrimLeading(s[1..]) else s
  }

  /** The trailing part of trim: drops characters at or below U+0020 from the back. */
  function TrimTrailing(s: string): (r: string)
    ensures |r| <= |s|
    decreases |s|
  {
    if s != [] && s[|s| - 1] <= ' ' then TrimTrailing(s[..|s| - 1]) else s
  }

  /** TrimLeading keeps a suffix, drops only characters at or below U+0020, and stops at one above it. */
  lemma {:induction false} TrimLeadingSuffix(s: string)
    ensures var r := TrimLeading(s);
      && |r| <= |s| && r == s[|s| - |r|..]
      && (forall i :: 0 <= i < |s| - |r| ==> s[i] <= ' ')
      && (r != [] ==> r[0] > ' ')
    decreases |s|
  {
    if s != [] && s[0] <= ' ' {
      TrimLeadingSuffix(s[1..]);
      var r := TrimLeading(s);
      assert forall i :: 1 <= i < |s| - |r| ==> s[i] == s[1..][i - 1];
    }
  }

  /** TrimTrailing keeps a prefix, drops only characters at or below U+0020, and stops at one above it. */
  lemma {:induction false} TrimTrailingPrefix(s: string)
    ensures var r := TrimTrailing(s);
      && |r| <= |s| && r == s[..|r|]
      && (forall i :: |r| <= i < |s| ==> s[i] <= ' ')
      && (r != [] ==> r[|r| - 1] > ' ')
    decreases |s|
  {
    if s != [] && s[|s| - 1] <= ' ' {
      TrimTrailingPrefix(s[..|s| - 1]);
      var r := TrimTrailing(s);
      assert forall i :: |r| <= i < |s| - 1 ==> s[i] == s[..|s| - 1][i];
    }
  }

  /** s.trim() */
  function Trim(s: string): string
  {
    TrimTrailing(TrimLeading(s))
  }

  /** Where the slice that trim keeps starts. */
  function TrimStart(s: string): nat
  {
    |s| - |TrimLeading(s)|
  }

  /** trim keeps a slice of s that neither starts nor ends with a character at or below U+0020, and drops only such characters. */
  lemma TrimSlice(s: string)
    ensures Trim(s) == s[TrimStart(s)..TrimStart(s) + |Trim(s)|]
    ensures forall i :: 0 <= i < TrimStart(s) ==> s[i] <= ' '
    ensures forall i :: TrimStart(s) + |Trim(s)| <= i < |s| ==> s[i] <= ' '
    ensures Trim(s) != [] ==> Trim(s)[0] > ' ' && Trim(s)[|Trim(s)| - 1] > ' '
  {
    var lead := TrimLeading(s);
    var r := TrimTrailing(lead);
    var b := |s| - |lead|;
    assert Trim(s) == r && TrimStart(s) == b;
    TrimLeadingSuffix(s);
    TrimTrailingPrefix(lead);
    assert lead == s[b..] && r == lead[..|r|];
    assert r == s[b..b + |r|] by {
      assert s[b..][..|r|] == s[b..b + |r|];
    }
    forall i | b + |r| <= i < |s|
      ensures s[i] <= ' '
    {
      assert s[i] == lead[i - b];
    }
    if r != [] {
      assert r[0] == lead[0];
    }
  }

  // ---------------------------------------------------------------------
  // replace
  // ---------------------------------------------------------------------

  /** s.replace(target, replacement), and s.replaceAll for a pattern without metacharacters: left to right, non-overlapping. */
  function Replace(s: string, target: string, replacement: string): string
    requires target != []
    decreases |s|
  {
    if s == [] then []
    else if target <= s then replacement + Replace(s[|target|..], target, replacement)
    else [s[0]] + Replace(s[1..], target, replacement)
  }

  /** Replacing a target that does not occur changes nothing. */
  lemma {:induction false} ReplaceAbsent(s: string, target: string, replacement: string)
    requires target != [] && !Contains(s, target)
    ensures Replace(s, target, replacement) == s
    decreases |s|
  {
    StartsWithIffPrefix(s, target);
    if s != [] {
      ReplaceAbsent(s[1..], target, replacement);
      assert [s[0]] + s[1..] == s;
    }
  }

  /** A target preceded by text without its first character is replaced once, at the end. */
  lemma {:induction false} ReplaceAtEnd(a: string, target: string, replacement: string)
    requires target != [] && target[0] !in a
    ensures Replace(a + target, target, replacement) == a + replacement
    decreases |a|
  {
    var s := a + target;
    if a == [] {
      assert s == target && s[|target|..] == [];
    } else {
      assert !(target <= s) by {
        assert s[0] == a[0];
      }
      assert s[1..] == a[1..] + target;
      ReplaceAtEnd(a[1..], target, replacement);
      assert a == [a[0]] + a[1..];
    }
  }

  /** Every character of the result comes from s or from the replacement. */
  lemma {:induction false} ReplaceAddsNothing(s: string, target: string, replacement: string, ch: char)
    requires target != []
    ensures ch in Replace(s, target, replacement) ==> ch in s || ch in replacement
    decreases |s|
  {
    if s != [] {
      if target <= s {
        ReplaceAddsNothing(s[|target|..], target, replacement, ch);
        if ch in Replace(s[|target|..], target, replacement) && ch in s[|target|..] {
          var k :| 0 <= k < |s[|target|..]| && s[|target|..][k] == ch;
          assert s[k + |target|] == ch;
        }
      } else {
        ReplaceAddsNothing(s[1..], target, replacement, ch);
        if ch in Replace(s[1..], target, replacement) && ch in s[1..] {
          var k :| 0 <= k < |s[1..]| && s[1..][k] == ch;
          assert s[k + 1] == ch;
        }
      }
    }
  }

  /** After replacing a single character by a string without it, the character is gone. */
  lemma {:induction false} ReplaceEliminates(s: string, ch: char, replacement: string)
    requires ch !in replacement
    ensures ch !in Replace(s, [ch], replacement)
    decreases |s|
  {
    if s != [] {
      if [ch] <= s {
        ReplaceEliminates(s[1..], ch, replacement);
        assert s[|[ch]|..] == s[1..];
      } else {
        ReplaceEliminates(s[1..], ch, replacement);
      }
    }
  }

  /** Replacing one character by another is a character-by-character map. */
  lemma {:induction false} ReplaceCharByChar(s: string, from: char, to: char)
    ensures |Replace(s, [from], [to])| == |s|
    ensures forall i :: 0 <= i < |s| ==>
      Replace(s, [from], [to])[i] == (if s[i] == from then to else s[i])
    decreases |s|
  {
    if s != [] {
      ReplaceCharByChar(s[1..], from, to);
      var r := Replace(s, [from], [to]);
      var rest := Replace(s[1..], [from], [to]);
      assert [from] <= s <==> s[0] == from;
      assert s[|[from]|..] == s[1..];
      assert r == [if s[0] == from then to else s[0]] + rest;
      assert forall i :: 1 <= i < |s| ==> r[i] == rest[i - 1] && s[i] == s[1..][i - 1];
    }
  }

  // ---------------------------------------------------------------------
  // equalsIgnoreCase
  // ---------------------------------------------------------------------

  /** Character.toLowerCase restricted to the ASCII letters. */
  function ToLowerAscii(ch: char): char
  {
    if 'A' <= ch <= 'Z' then (ch as int - 'A' as int + 'a' as int) as char else ch
  }

  /** s.equalsIgnoreCase(t), with ASCII case folding. */
  predicate EqualsIgnoreCase(s: string, t: string)
  {
    |s| == |t| && forall i :: 0 <= i < |s| ==> ToLowerAscii(s[i]) == ToLowerAscii(t[i])
  }
}
