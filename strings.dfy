/**
 * The Python `str` operations the crawler relies on, as pure functions over
 * `string`: `replace`, `split`, `join`, `lower`, `upper` and `strip`.
 */
module Strings {

  /** `s.replace(pat, rep)`: every leftmost non-overlapping occurrence of `pat` becomes `rep`. */
  function Replace(s: string, pat: string, rep: string): string
    decreases |s|
  {
    if pat == [] then Interleave(s, rep)
    else if s == [] then []
    else if pat <= s then rep + Replace(s[|pat|..], pat, rep)
    else [s[0]] + Replace(s[1..], pat, rep)
  }

  /** `s.replace("", rep)`: `rep` before every character and once more at the end. */
  function Interleave(s: string, rep: string): string
  {
    if s == [] then rep else rep + [s[0]] + Interleave(s[1..], rep)
  }

  /** `s.split(sep)` with an explicit separator; Python raises ValueError on an empty one. */
  function Split(s: string, sep: string): (parts: seq<string>)
    requires sep != []
    ensures |parts| >= 1
    decreases |s|
  {
    if s == [] then [[]]
    else if sep <= s then [[]] + Split(s[|sep|..], sep)
    else
      var rest := Split(s[1..], sep);
      [[s[0]] + rest[0]] + rest[1..]
  }

  /** `sep.join(parts)`. */
  function Join(parts: seq<string>, sep: string): string
  {
    if parts == [] then []
    else if |parts| == 1 then parts[0]
    else parts[0] + sep + Join(parts[1..], sep)
  }

  /** The last piece of `s.split(sep)`, Python's `s.split(sep)[-1]`. */
  function LastPiece(s: string, sep: string): string
    requires sep != []
  {
    var parts := Split(s, sep);
    parts[|parts| - 1]
  }

  // ---------------------------------------------------------------------------
  // Case mapping (ASCII letters only) and whitespace stripping

  predicate IsUpper(c: char) { 'A' <= c <= 'Z' }

  predicate IsLower(c: char) { 'a' <= c <= 'z' }

  function LowerChar(c: char): char
  {
    if IsUpper(c) then (c as int - 'A' as int + 'a' as int) as char else c
  }

  function UpperChar(c: char): char
  {
    if IsLower(c) then (c as int - 'a' as int + 'A' as int) as char else c
  }

  /** `s.lower()` restricted to ASCII letters. */
  function Lower(s: string): string
  {
    seq(|s|, i requires 0 <= i < |s| => LowerChar(s[i]))
  }

  /** `s.upper()` restricted to ASCII letters. */
  function Upper(s: string): string
  {
    seq(|s|, i requires 0 <= i < |s| => UpperChar(s[i]))
  }

  /** The characters for which Python's `str.isspace()` holds. */
  predicate IsSpace(c: char)
  {
    c in " \t\n\r\U{B}\U{C}\U{1C}\U{1D}\U{1E}\U{1F}\U{85}\U{A0}\U{1680}\U{2028}\U{2029}\U{202F}\U{205F}\U{3000}"
    || '\U{2000}' <= c <= '\U{200A}'
  }

  function TrimStart(s: string): string
  {
    if s != [] && IsSpace(s[0]) then TrimStart(s[1..]) else s
  }

  function TrimEnd(s: string): string
  {
    if s != [] && IsSpace(s[|s| - 1]) then TrimEnd(s[..|s| - 1]) else s
  }

  /** `s.strip()`: leading and trailing whitespace removed. */
  function Strip(s: string): string
  {
    TrimEnd(TrimStart(s))
  }

  // ---------------------------------------------------------------------------
  // Lemmas: replace and split/join

  /** Text after the last separator is the last piece of the split. */
  lemma {:induction false} SplitLast(u: string, v: string, c: char)
    requires c !in v
    ensures |Split(u + [c] + v, [c])| >= 2
    ensures LastPiece(u + [c] + v, [c]) == v
    decreases |u|
  {
    var s := u + [c] + v;
    if u == [] {
      assert s == [c] + v;
      assert [c] <= s && s[|[c]|..] == v;
      SplitNone(v, [c]);
    } else {
      assert s[1..] == u[1..] + [c] + v;
      SplitLast(u[1..], v, c);
      if [c] <= s {
        assert s[|[c]|..] == s[1..];
      }
    }
  }

  /** Python's identity `s.replace(p, r) == r.join(s.split(p))`: replace is split followed by join. */
  lemma {:induction false} ReplaceIsSplitJoin(s: string, pat: string, rep: string)
    requires pat != []
    ensures Replace(s, pat, rep) == Join(Split(s, pat), rep)
    decreases |s|
  {
    if s == [] {
    } else if pat <= s {
      ReplaceIsSplitJoin(s[|pat|..], pat, rep);
    } else {
      ReplaceIsSplitJoin(s[1..], pat, rep);
      JoinConsChar(s[0], Split(s[1..], pat), rep);
    }
  }

  /** Prepending a character to the first piece prepends it to the joined string. */
  lemma JoinConsChar(c: char, parts: seq<string>, sep: string)
    requires |parts| >= 1
    ensures Join([[c] + parts[0]] + parts[1..], sep) == [c] + Join(parts, sep)
  {
    var ps := [[c] + parts[0]] + parts[1..];
    assert ps[1..] == parts[1..];
  }

  /** Joining one more piece adds the separator and that piece at the end. */
  lemma {:induction false} JoinSnoc(parts: seq<string>, last: string, sep: string)
    requires |parts| >= 1
    ensures Join(parts + [last], sep) == Join(parts, sep) + sep + last
    decreases |parts|
  {
    if |parts| > 1 {
      assert (parts + [last])[1..] == parts[1..] + [last];
      JoinSnoc(parts[1..], last, sep);
    }
  }

  /** Replacing a pattern by itself changes nothing. */
  lemma {:induction false} ReplaceSelf(s: string, pat: string)
    ensures Replace(s, pat, pat) == s
    decreases |s|
  {
    if pat == [] {
      InterleaveEmpty(s);
    } else if s == [] {
    } else if pat <= s {
      ReplaceSelf(s[|pat|..], pat);
      assert s == pat + s[|pat|..];
    } else {
      ReplaceSelf(s[1..], pat);
      assert s == [s[0]] + s[1..];
    }
  }

  lemma {:induction false} InterleaveEmpty(s: string)
    ensures Interleave(s, []) == s
  {
    if s != [] {
      InterleaveEmpty(s[1..]);
      assert s == [s[0]] + s[1..];
    }
  }

  /** Round trip: joining the pieces of a split with the same separator gives the string back. */
  lemma JoinSplit(s: string, sep: string)
    requires sep != []
    ensures Join(Split(s, sep), sep) == s
  {
    ReplaceIsSplitJoin(s, sep, sep);
    ReplaceSelf(s, sep);
  }

  /** A prefix that cannot start a separator becomes part of the first piece. */
  lemma {:induction false} SplitAfter(u: string, v: string, sep: string)
    requires sep != [] && sep[0] !in u
    ensures Split(u + v, sep) == [u + Split(v, sep)[0]] + Split(v, sep)[1..]
    decreases |u|
  {
    if u != [] {
      SplitAfter(u[1..], v, sep);
      assert (u + v)[1..] == u[1..] + v;
      assert !(sep <= u + v);
      assert [u[0]] + (u[1..] + Split(v, sep)[0]) == u + Split(v, sep)[0];
    } else {
      assert u + v == v;
      assert u + Split(v, sep)[0] == Split(v, sep)[0];
      assert Split(v, sep) == [Split(v, sep)[0]] + Split(v, sep)[1..];
    }
  }

  /** The first piece of a split begins with the text's first character, unless a separator starts there. */
  lemma SplitFirst(s: string, sep: string)
    requires sep != []
    ensures s != [] && s[0] != sep[0] ==> Split(s, sep)[0] != [] && Split(s, sep)[0][0] == s[0]
    ensures s == [] || s[0] == sep[0] || Split(s, sep)[0] != []
  {
  }

  /** A string free of the separator's first character is split into itself alone. */
  lemma SplitNone(s: string, sep: string)
    requires sep != [] && sep[0] !in s
    ensures Split(s, sep) == [s]
  {
    SplitAfter(s, [], sep);
    assert s + [] == s;
  }

  /** Round trip: splitting a join gives the pieces back when no piece can start a separator. */
  lemma {:induction false} SplitJoin(parts: seq<string>, sep: string)
    requires sep != [] && |parts| >= 1
    requires forall i :: 0 <= i < |parts| ==> sep[0] !in parts[i]
    ensures Split(Join(parts, sep), sep) == parts
    decreases |parts|
  {
    if |parts| == 1 {
      SplitNone(parts[0], sep);
    } else {
      var rest := Join(parts[1..], sep);
      SplitJoin(parts[1..], sep);
      assert Join(parts, sep) == parts[0] + (sep + rest);
      SplitAfter(parts[0], sep + rest, sep);
      assert (sep + rest)[|sep|..] == rest;
      assert Split(sep + rest, sep) == [[]] + parts[1..];
      assert parts[0] + [] == parts[0];
      assert parts == [parts[0]] + parts[1..];
    }
  }

  /** A joined string holds only characters of its pieces and of the separator. */
  lemma {:induction false} JoinChars(parts: seq<string>, sep: string)
    ensures forall c :: c in Join(parts, sep) ==> c in sep || exists i :: 0 <= i < |parts| && c in parts[i]
    decreases |parts|
  {
    if |parts| > 1 {
      JoinChars(parts[1..], sep);
      forall c | c in Join(parts[1..], sep) && c !in sep
        ensures exists i :: 0 <= i < |parts| && c in parts[i]
      {
        var j :| 0 <= j < |parts[1..]| && c in parts[1..][j];
        assert c in parts[j + 1];
      }
    } else if |parts| == 1 {
      forall c | c in Join(parts, sep) ensures c in parts[0] { }
    }
  }

  /** Splitting on a one-character separator gives one more piece than there are separators. */
  lemma {:induction false} SplitCount(s: string, c: char)
    ensures |Split(s, [c])| == multiset(s)[c] + 1
    decreases |s|
  {
    if s != [] {
      SplitCount(s[1..], c);
      assert s == [s[0]] + s[1..];
      assert multiset(s) == multiset([s[0]]) + multiset(s[1..]);
    }
  }

  /** Splitting on a one-character separator: no piece contains it. */
  lemma {:induction false} SplitPiecesFree(s: string, c: char)
    ensures forall i :: 0 <= i < |Split(s, [c])| ==> c !in Split(s, [c])[i]
    decreases |s|
  {
    if s != [] {
      SplitPiecesFree(s[1..], c);
    }
  }

  // ---------------------------------------------------------------------------
  // Lemmas: which characters a replacement can produce

  /** Replace only produces characters of its input or of the replacement. */
  lemma {:induction false} ReplaceChars(s: string, pat: string, rep: string)
    ensures forall c :: c in Replace(s, pat, rep) ==> c in s || c in rep
    decreases |s|
  {
    if pat == [] {
      InterleaveChars(s, rep);
    } else if s == [] {
    } else if pat <= s {
      ReplaceChars(s[|pat|..], pat, rep);
    } else {
      ReplaceChars(s[1..], pat, rep);
    }
  }

  lemma {:induction false} InterleaveChars(s: string, rep: string)
    ensures forall c :: c in Interleave(s, rep) ==> c in s || c in rep
  {
    if s != [] {
      InterleaveChars(s[1..], rep);
    }
  }

  /** Replacing a one-character pattern by text without it removes every occurrence. */
  lemma {:induction false} ReplaceRemoves(s: string, c: char, rep: string)
    requires c !in rep
    ensures c !in Replace(s, [c], rep)
    decreases |s|
  {
    if s != [] {
      ReplaceRemoves(s[1..], c, rep);
      if [c] <= s {
        assert s[1..] == s[|[c]|..];
      }
    }
  }

  /** A replacement keeps a character out when neither its input nor its replacement has it. */
  lemma KeepsOut(s: string, pat: string, rep: string, c: char)
    requires c !in s && c !in rep
    ensures c !in Replace(s, pat, rep)
  {
    ReplaceChars(s, pat, rep);
  }

  /** A pattern with a character the input lacks never occurs: replace leaves the input alone. */
  lemma {:induction false} ReplaceAbsent(s: string, pat: string, rep: string, c: char)
    requires c in pat && c !in s
    ensures Replace(s, pat, rep) == s
    decreases |s|
  {
    if s != [] {
      ReplaceAbsent(s[1..], pat, rep, c);
      assert s == [s[0]] + s[1..];
    }
  }

  /** A prefix in which the pattern cannot start is copied unchanged. */
  lemma {:induction false} ReplaceAfter(u: string, v: string, pat: string, rep: string)
    requires pat != [] && pat[0] !in u
    ensures Replace(u + v, pat, rep) == u + Replace(v, pat, rep)
    decreases |u|
  {
    if u != [] {
      assert (u + v)[1..] == u[1..] + v;
      ReplaceAfter(u[1..], v, pat, rep);
      assert u == [u[0]] + u[1..];
    } else {
      assert u + v == v;
    }
  }

  /** An occurrence at the very start is replaced, and the rest is processed after it. */
  lemma ReplaceAt(v: string, pat: string, rep: string)
    requires pat != []
    ensures Replace(pat + v, pat, rep) == rep + Replace(v, pat, rep)
  {
    assert (pat + v)[|pat|..] == v;
  }

  /** An occurrence after a prefix in which the pattern cannot start is replaced, and the rest after it. */
  lemma ReplaceAround(u: string, v: string, pat: string, rep: string)
    requires pat != [] && pat[0] !in u
    ensures Replace(u + pat + v, pat, rep) == u + rep + Replace(v, pat, rep)
  {
    assert u + pat + v == u + (pat + v);
    ReplaceAfter(u, pat + v, pat, rep);
    ReplaceAt(v, pat, rep);
  }

  /** A one-character pattern is replaced piecewise over a concatenation. */
  lemma {:induction false} ReplaceCharConcat(u: string, v: string, c: char, rep: string)
    ensures Replace(u + v, [c], rep) == Replace(u, [c], rep) + Replace(v, [c], rep)
    decreases |u|
  {
    if u == [] {
      assert u + v == v;
    } else {
      assert (u + v)[1..] == u[1..] + v;
      ReplaceCharConcat(u[1..], v, c, rep);
      if [c] <= u {
        assert [c] <= u + v;
        assert u[1..] == u[|[c]|..];
        assert (u + v)[1..] == (u + v)[|[c]|..];
      } else {
        assert !([c] <= u + v);
      }
    }
  }

  // ---------------------------------------------------------------------------
  // Lemmas: case mapping and strip

  /** `lower()` leaves no upper-case letter; `upper()` leaves no lower-case letter. */
  lemma CaseMapped(s: string)
    ensures forall c :: c in Lower(s) ==> !IsUpper(c)
    ensures forall c :: c in Upper(s) ==> !IsLower(c)
  {
  }

  /** A string without upper-case letters is its own `lower()`. */
  lemma LowerIdentity(s: string)
    requires forall c :: c in s ==> !IsUpper(c)
    ensures Lower(s) == s
  {
  }

  /** `strip()` removes whitespace at both ends and nothing at all from a string without any. */
  lemma {:induction false} StripIdentity(s: string)
    requires forall c :: c in s ==> !IsSpace(c)
    ensures Strip(s) == s
  {
    if s != [] {
      assert s[0] in s && s[|s| - 1] in s;
    }
  }

  /** The result of `strip()` starts and ends with a non-space character. */
  lemma {:induction false} StripEnds(s: string)
    ensures Strip(s) == [] || (!IsSpace(Strip(s)[0]) && !IsSpace(Strip(s)[|Strip(s)| - 1]))
  {
    TrimStartEnds(s);
    TrimEndEnds(TrimStart(s));
  }

  /**
   * `strip()` removes only whitespace, and only at the two ends: the result
   * is a slice of the input with nothing but whitespace before and after it.
   */
  lemma StripOnlySpace(s: string)
    ensures exists i, j ::
              && 0 <= i <= j <= |s| && Strip(s) == s[i..j]
              && (forall k :: 0 <= k < i ==> IsSpace(s[k]))
              && (forall k :: j <= k < |s| ==> IsSpace(s[k]))
  {
    var t := TrimStart(s);
    TrimStartSpaces(s);
    TrimEndSpaces(t);
    var i := |s| - |t|;
    var j := i + |TrimEnd(t)|;
    assert Strip(s) == s[i..j];
    forall k | j <= k < |s|
      ensures IsSpace(s[k])
    {
      assert s[k] == t[k - i];
    }
  }

  /** `TrimStart` cuts a prefix made only of whitespace. */
  lemma {:induction false} TrimStartSpaces(s: string)
    ensures |TrimStart(s)| <= |s|
    ensures TrimStart(s) == s[|s| - |TrimStart(s)|..]
    ensures forall k :: 0 <= k < |s| - |TrimStart(s)| ==> IsSpace(s[k])
    decreases |s|
  {
    if s != [] && IsSpace(s[0]) {
      TrimStartSpaces(s[1..]);
    }
  }

  /** `TrimEnd` cuts a suffix made only of whitespace. */
  lemma {:induction false} TrimEndSpaces(s: string)
    ensures |TrimEnd(s)| <= |s|
    ensures TrimEnd(s) == s[..|TrimEnd(s)|]
    ensures forall k :: |TrimEnd(s)| <= k < |s| ==> IsSpace(s[k])
    decreases |s|
  {
    if s != [] && IsSpace(s[|s| - 1]) {
      TrimEndSpaces(s[..|s| - 1]);
    }
  }

  lemma {:induction false} TrimStartEnds(s: string)
    ensures TrimStart(s) == [] || !IsSpace(TrimStart(s)[0])
    ensures |TrimStart(s)| <= |s|
    ensures TrimStart(s) == s[|s| - |TrimStart(s)|..]
    decreases |s|
  {
    if s != [] && IsSpace(s[0]) {
      TrimStartEnds(s[1..]);
    }
  }

  lemma {:induction false} TrimEndEnds(s: string)
    requires s == [] || !IsSpace(s[0])
    ensures TrimEnd(s) == [] || (!IsSpace(TrimEnd(s)[0]) && !IsSpace(TrimEnd(s)[|TrimEnd(s)| - 1]))
    ensures |TrimEnd(s)| <= |s|
    ensures TrimEnd(s) == s[..|TrimEnd(s)|]
    decreases |s|
  {
    if s != [] && IsSpace(s[|s| - 1]) {
      TrimEndEnds(s[..|s| - 1]);
    }
  }
}
