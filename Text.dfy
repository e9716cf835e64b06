/**
 * The two Ruby string operations the registration relies on, with Ruby's
 * semantics written out: `String#split` with a one-character string pattern
 * (and no limit), and `String#strip`.
 */
module Text {

  // ---------------------------------------------------------------------
  // Splitting on a separator character
  // ---------------------------------------------------------------------

  /**
   * Every field of `s` between separators, including empty ones: `n`
   * separators give `n + 1` fields. This is the split before Ruby removes
   * trailing empty fields.
   */
  function Split(s: string, sep: char): (parts: seq<string>)
    ensures |parts| >= 1
    ensures forall k :: 0 <= k < |parts| ==> sep !in parts[k]
    decreases |s|
  {
    if s == [] then [""]
    else
      var rest := Split(s[1..], sep);
      if s[0] == sep then [""] + rest
      else [[s[0]] + rest[0]] + rest[1..]
  }

  /** The fields written back with one separator between neighbours. */
  function Join(parts: seq<string>, sep: char): string
    decreases |parts|
  {
    if parts == [] then ""
    else if |parts| == 1 then parts[0]
    else parts[0] + [sep] + Join(parts[1..], sep)
  }

  /** Splitting loses nothing: joining the fields gives the string back. */
  lemma {:induction false} SplitJoin(s: string, sep: char)
    ensures Join(Split(s, sep), sep) == s
    decreases |s|
  {
    if s != [] {
      var rest := Split(s[1..], sep);
      SplitJoin(s[1..], sep);
      if s[0] == sep {
        assert Split(s, sep) == [""] + rest;
        assert ([""] + rest)[1..] == rest;
        assert Join(Split(s, sep), sep) == [sep] + s[1..];
      } else if |rest| == 1 {
        assert Split(s, sep) == [[s[0]] + rest[0]];
      } else {
        var parts := [[s[0]] + rest[0]] + rest[1..];
        assert parts[1..] == rest[1..];
        assert Join(rest, sep) == rest[0] + [sep] + Join(rest[1..], sep);
      }
    }
  }

  /** A string without the separator is a single field. */
  lemma {:induction false} SplitWithoutSep(x: string, sep: char)
    requires sep !in x
    ensures Split(x, sep) == [x]
    decreases |x|
  {
    if x != [] {
      SplitWithoutSep(x[1..], sep);
      assert [x[0]] + x[1..] == x;
    }
  }

  /** A separator after a separator-free prefix ends the first field there. */
  lemma {:induction false} SplitAtSep(x: string, sep: char, y: string)
    requires sep !in x
    ensures Split(x + [sep] + y, sep) == [x] + Split(y, sep)
    decreases |x|
  {
    var s := x + [sep] + y;
    if x == [] {
      assert s[0] == sep && s[1..] == y;
    } else {
      assert s[0] == x[0] && s[1..] == x[1..] + [sep] + y;
      SplitAtSep(x[1..], sep, y);
      assert [x[0]] + x[1..] == x;
    }
  }

  /** Fields that hold no separator come back unchanged from their join. */
  lemma {:induction false} JoinSplit(parts: seq<string>, sep: char)
    requires |parts| >= 1
    requires forall k :: 0 <= k < |parts| ==> sep !in parts[k]
    ensures Split(Join(parts, sep), sep) == parts
    decreases |parts|
  {
    if |parts| == 1 {
      SplitWithoutSep(parts[0], sep);
    } else {
      JoinSplit(parts[1..], sep);
      SplitAtSep(parts[0], sep, Join(parts[1..], sep));
      assert [parts[0]] + parts[1..] == parts;
    }
  }

  /** Every field is empty exactly when the string holds nothing but separators. */
  lemma {:induction false} SplitAllEmpty(s: string, sep: char)
    ensures (forall k :: 0 <= k < |Split(s, sep)| ==> Split(s, sep)[k] == "")
        <==> (forall i :: 0 <= i < |s| ==> s[i] == sep)
    decreases |s|
  {
    if s != [] {
      SplitAllEmpty(s[1..], sep);
      var rest := Split(s[1..], sep);
      if s[0] == sep {
        var parts := Split(s, sep);
        assert parts == [""] + rest;
        assert (forall k :: 0 <= k < |parts| ==> parts[k] == "")
           <==> (forall k :: 0 <= k < |rest| ==> rest[k] == "") by {
          assert forall k :: 1 <= k < |parts| ==> parts[k] == rest[k - 1];
          assert forall k :: 0 <= k < |rest| ==> rest[k] == parts[k + 1];
        }
        assert (forall i :: 0 <= i < |s| ==> s[i] == sep)
           <==> (forall i :: 0 <= i < |s[1..]| ==> s[1..][i] == sep) by {
          assert forall i :: 1 <= i < |s| ==> s[i] == s[1..][i - 1];
        }
      } else {
        assert Split(s, sep)[0] != "";
      }
    }
  }

  /** The fields with the run of empty fields at the end removed. */
  function DropTrailingEmpty(parts: seq<string>): (r: seq<string>)
    ensures |r| <= |parts| && r == parts[..|r|]
    ensures forall k :: |r| <= k < |parts| ==> parts[k] == ""
    ensures r == [] || r[|r| - 1] != ""
    decreases |parts|
  {
    if parts != [] && parts[|parts| - 1] == "" then DropTrailingEmpty(parts[..|parts| - 1])
    else parts
  }

  /**
   * Ruby's `s.split(sep)` for a one-character pattern: the fields between
   * separators, with trailing empty fields removed (so `""` gives `[]`).
   */
  function RubySplit(s: string, sep: char): (fields: seq<string>)
    ensures |fields| <= |Split(s, sep)| && fields == Split(s, sep)[..|fields|]
    ensures forall k :: 0 <= k < |fields| ==> sep !in fields[k]
    ensures fields == [] || fields[|fields| - 1] != ""
  {
    DropTrailingEmpty(Split(s, sep))
  }

  /**
   * Ruby's split keeps the fields in order, none holds the separator, and it
   * yields nothing exactly when the string is made of separators only.
   */
  lemma RubySplitShape(s: string, sep: char)
    ensures var r := RubySplit(s, sep);
      r == Split(s, sep)[..|r|] &&
      (forall k :: 0 <= k < |r| ==> sep !in r[k]) &&
      (r == [] <==> forall i :: 0 <= i < |s| ==> s[i] == sep)
  {
    var parts := Split(s, sep);
    var r := RubySplit(s, sep);
    SplitAllEmpty(s, sep);
    assert forall k :: 0 <= k < |r| ==> r[k] == parts[k];
  }

  // ---------------------------------------------------------------------
  // Stripping whitespace
  // ---------------------------------------------------------------------

  /** The characters Ruby's `strip` removes: ASCII whitespace and NUL. */
  predicate IsSpace(c: char)
  {
    c == ' ' || c == '\t' || c == '\n' || c == '\U{000B}' || c == '\U{000C}' || c == '\r' || c == '\0'
  }

  /** Neither end of the string is a space character. */
  predicate IsStripped(t: string)
  {
    t == [] || (!IsSpace(t[0]) && !IsSpace(t[|t| - 1]))
  }

  /** The number of space characters at the front of the string. */
  function LeadingSpaces(s: string): (n: nat)
    ensures n <= |s|
    ensures forall k :: 0 <= k < n ==> IsSpace(s[k])
    ensures n == |s| || !IsSpace(s[n])
    decreases |s|
  {
    if s != [] && IsSpace(s[0]) then 1 + LeadingSpaces(s[1..]) else 0
  }

  /** The number of space characters at the back of the string. */
  function TrailingSpaces(s: string): (n: nat)
    ensures n <= |s|
    ensures forall k :: |s| - n <= k < |s| ==> IsSpace(s[k])
    ensures n == |s| || !IsSpace(s[|s| - 1 - n])
    decreases |s|
  {
    if s != [] && IsSpace(s[|s| - 1]) then 1 + TrailingSpaces(s[..|s| - 1]) else 0
  }

  /**
   * Ruby's `strip`: the string without its leading and trailing space
   * characters. What is left lies between a run of spaces at the front and a
   * run at the back, and neither of its ends is a space.
   */
  function Strip(s: string): (r: string)
    ensures IsStripped(r)
    ensures LeadingSpaces(s) + |r| <= |s|
    ensures r == s[LeadingSpaces(s)..LeadingSpaces(s) + |r|]
    ensures forall k :: 0 <= k < LeadingSpaces(s) ==> IsSpace(s[k])
    ensures forall k :: LeadingSpaces(s) + |r| <= k < |s| ==> IsSpace(s[k])
  {
    var front := LeadingSpaces(s);
    if front == |s| then ""
    else
      var back := TrailingSpaces(s);
      assert !IsSpace(s[front]);
      s[front..|s| - back]
  }

  /** Stripping a string that is already stripped changes nothing. */
  lemma StripStripped(t: string)
    requires IsStripped(t)
    ensures Strip(t) == t
  {
    if t != [] {
      assert LeadingSpaces(t) == 0 && TrailingSpaces(t) == 0;
      assert t[0..|t|] == t;
    }
  }

  /** A space in front of a stripped string is stripped away. */
  lemma StripAfterSpace(t: string)
    requires IsStripped(t)
    ensures Strip([' '] + t) == t
  {
    var s := [' '] + t;
    assert s[1..] == t;
    assert LeadingSpaces(s) == 1 + LeadingSpaces(t);
    if t != [] {
      assert LeadingSpaces(t) == 0;
      assert s[|s| - 1] == t[|t| - 1];
      assert TrailingSpaces(s) == 0;
      assert s[1..|s|] == t;
    }
  }

  /** Stripping twice is stripping once. */
  lemma StripIdempotent(s: string)
    ensures Strip(Strip(s)) == Strip(s)
  {
    StripStripped(Strip(s));
  }

  /** Stripping removes characters and adds none. */
  lemma StripKeepsOut(s: string, c: char)
    requires c !in s
    ensures c !in Strip(s)
  {
    var r := Strip(s);
    var i := LeadingSpaces(s);
    forall k | 0 <= k < |r| ensures r[k] != c {
      assert r[k] == s[i + k];
    }
  }
}
