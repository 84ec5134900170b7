/**
 * The few Ruby `String` operations the email payload builder relies on,
 * written out with the semantics of the Ruby core library:
 * `gsub(/\s/, "")`, `downcase`, `strip`, `end_with?` and `split(",")`.
 */
module RubyText {

  /** Characters of the regular-expression class `\s`: space, tab, line feed,
      vertical tab, form feed and carriage return. */
  predicate IsRegexSpace(c: char) {
    c == ' ' || c == '\t' || c == '\n' || c == '\r' || c as int == 0x0B || c as int == 0x0C
  }

  /** Characters `String#strip` removes at either end: `\s` and NUL. */
  predicate IsStripChar(c: char) {
    IsRegexSpace(c) || c == '\0'
  }

  /** A string that neither starts nor ends with a strip character. */
  predicate Stripped(s: string) {
    s != [] ==> !IsStripChar(s[0]) && !IsStripChar(s[|s| - 1])
  }

  predicate IsUpper(c: char) {
    'A' <= c <= 'Z'
  }

  function LowerChar(c: char): char {
    if IsUpper(c) then (c as int + 32) as char else c
  }

  /** `s.gsub(/\s/, "")`: every whitespace character removed, the rest kept in order. */
  function RemoveRegexSpace(s: string): (r: string)
    ensures |r| <= |s|
  {
    if s == [] then []
    else if IsRegexSpace(s[0]) then RemoveRegexSpace(s[1..])
    else [s[0]] + RemoveRegexSpace(s[1..])
  }

  /** What `gsub(/\s/, "")` leaves: no whitespace, and the same set of
      non-whitespace characters as `s` (order and count are kept too, see
      `RemoveRegexSpaceAppend`). */
  lemma {:induction false} RemoveRegexSpaceSpec(s: string)
    ensures var r := RemoveRegexSpace(s);
      (forall k :: 0 <= k < |r| ==> !IsRegexSpace(r[k]))
      && (forall c :: c in r <==> c in s && !IsRegexSpace(c))
  {
    if s != [] {
      RemoveRegexSpaceSpec(s[1..]);
      assert forall c :: c in s <==> c == s[0] || c in s[1..];
    }
  }

  /** `gsub(/\s/, "")` on one character: dropped when it is whitespace,
      kept otherwise. */
  lemma RemoveRegexSpaceChar(c: char)
    ensures RemoveRegexSpace([c]) == if IsRegexSpace(c) then [] else [c]
  {
    assert [c][1..] == [];
  }

  /** `gsub(/\s/, "")` works piece by piece: the result for `a + b` is the
      result for `a` followed by the result for `b`, so the kept characters
      stay in their order and keep their count. */
  lemma {:induction false} RemoveRegexSpaceAppend(a: string, b: string)
    ensures RemoveRegexSpace(a + b) == RemoveRegexSpace(a) + RemoveRegexSpace(b)
  {
    if a == [] {
      assert a + b == b;
    } else {
      assert (a + b)[0] == a[0];
      assert (a + b)[1..] == a[1..] + b;
      RemoveRegexSpaceAppend(a[1..], b);
    }
  }

  /** `s.downcase` on ASCII letters. */
  function Downcase(s: string): (r: string)
    ensures |r| == |s|
  {
    if s == [] then [] else [LowerChar(s[0])] + Downcase(s[1..])
  }

  /** What `downcase` gives: no upper-case letter left, every upper-case
      letter moved to its lower-case partner, every other character kept. */
  lemma {:induction false} DowncaseSpec(s: string)
    ensures var r := Downcase(s);
      (forall k :: 0 <= k < |r| ==> !IsUpper(r[k]))
      && (forall k :: 0 <= k < |s| && !IsUpper(s[k]) ==> r[k] == s[k])
      && (forall k :: 0 <= k < |s| && IsUpper(s[k]) ==> r[k] as int == s[k] as int + 32)
  {
    if s != [] {
      DowncaseSpec(s[1..]);
      var r := Downcase(s);
      assert forall k :: 1 <= k < |s| ==> r[k] == Downcase(s[1..])[k - 1];
    }
  }

  /** `s.end_with?(suffix)`. */
  predicate EndsWith(s: string, suffix: string) {
    |suffix| <= |s| && s[|s| - |suffix|..] == suffix
  }

  /** `s.lstrip`: a suffix of `s` that does not start with a strip character. */
  function LStrip(s: string): (r: string)
    ensures |r| <= |s| && r == s[|s| - |r|..]
    ensures r != [] ==> !IsStripChar(r[0])
  {
    if s != [] && IsStripChar(s[0]) then LStrip(s[1..]) else s
  }

  /** Everything `lstrip` cuts off is a strip character. */
  lemma {:induction false} LStripCutsBlanks(s: string)
    ensures forall k :: 0 <= k < |s| - |LStrip(s)| ==> IsStripChar(s[k])
  {
    if s != [] && IsStripChar(s[0]) {
      var t := s[1..];
      LStripCutsBlanks(t);
      assert LStrip(s) == LStrip(t);
      forall k | 1 <= k < |s| - |LStrip(s)|
        ensures IsStripChar(s[k])
      {
        assert s[k] == t[k - 1];
      }
    }
  }

  /** `s.rstrip`: a prefix of `s` that does not end with a strip character. */
  function RStrip(s: string): (r: string)
    ensures |r| <= |s| && r == s[..|r|]
    ensures r != [] ==> !IsStripChar(r[|r| - 1])
  {
    if s != [] && IsStripChar(s[|s| - 1]) then RStrip(s[..|s| - 1]) else s
  }

  /** Everything `rstrip` cuts off is a strip character. */
  lemma {:induction false} RStripCutsBlanks(s: string)
    ensures forall k :: |RStrip(s)| <= k < |s| ==> IsStripChar(s[k])
  {
    if s != [] && IsStripChar(s[|s| - 1]) {
      var t := s[..|s| - 1];
      RStripCutsBlanks(t);
      assert RStrip(s) == RStrip(t);
      forall k | |RStrip(s)| <= k < |s| - 1
        ensures IsStripChar(s[k])
      {
        assert s[k] == t[k];
      }
    }
  }

  /** `s.strip`. */
  function Strip(s: string): (r: string)
    ensures |r| <= |s|
  {
    RStrip(LStrip(s))
  }

  /** `strip` keeps the slice of `s` that starts after the leading run of
      strip characters. */
  lemma StripSlice(s: string)
    ensures var i := |s| - |LStrip(s)|; var r := Strip(s);
      i + |r| <= |s| && r == s[i..i + |r|]
  {
    var l := LStrip(s);
    var i := |s| - |l|;
    var r := RStrip(l);
    SliceOfSuffix(s, i, |r|);
  }

  /** A prefix of a suffix is a slice. */
  lemma SliceOfSuffix(s: string, i: nat, n: nat)
    requires i + n <= |s|
    ensures s[i..][..n] == s[i..i + n]
  {
  }

  /** What `strip` keeps neither starts nor ends with a strip character. */
  lemma StripEnds(s: string)
    ensures Stripped(Strip(s))
  {
    var l := LStrip(s);
    var r := RStrip(l);
    assert r != [] ==> r[0] == l[0];
  }

  /** Every character `strip` keeps comes from `s`. */
  lemma StripChars(s: string)
    ensures forall c :: c in Strip(s) ==> c in s
  {
    StripSlice(s);
  }

  /** A string that neither starts nor ends with a strip character is left
      alone by `strip`. */
  lemma StripUnchanged(s: string)
    requires Stripped(s)
    ensures Strip(s) == s
  {
    assert LStrip(s) == s;
    assert RStrip(s) == s;
  }

  /** `strip` is idempotent. */
  lemma StripIdempotent(s: string)
    ensures Strip(Strip(s)) == Strip(s)
  {
    StripEnds(s);
    StripUnchanged(Strip(s));
  }

  /** Fields of `s` between separators, keeping every empty field
      (the shape of `split` before it drops trailing empty fields). */
  function SplitAll(s: string, sep: char): (fields: seq<string>)
    ensures |fields| >= 1
  {
    if s == [] then [[]]
    else
      var rest := SplitAll(s[1..], sep);
      if s[0] == sep then [[]] + rest
      else [[s[0]] + rest[0]] + rest[1..]
  }

  /** No field of the list holds the separator. */
  predicate SeparatorFree(fields: seq<string>, sep: char) {
    forall i :: 0 <= i < |fields| ==> sep !in fields[i]
  }

  /** No field of `SplitAll` holds the separator. */
  lemma {:induction false} SplitAllFields(s: string, sep: char)
    ensures SeparatorFree(SplitAll(s, sep), sep)
  {
    if s != [] {
      SplitAllFields(s[1..], sep);
      var rest := SplitAll(s[1..], sep);
      var fields := SplitAll(s, sep);
      if s[0] == sep {
        assert fields == [[]] + rest;
        assert forall i :: 1 <= i < |fields| ==> fields[i] == rest[i - 1];
      } else {
        assert fields == [[s[0]] + rest[0]] + rest[1..];
        forall i | 0 <= i < |fields|
          ensures sep !in fields[i]
        {
          if i == 0 {
            assert sep !in rest[0];
            assert fields[0] == [s[0]] + rest[0];
          } else {
            assert fields[i] == rest[i];
          }
        }
      }
    }
  }

  /** `fields.join(sep)`. */
  function Join(fields: seq<string>, sep: char): string
  {
    if |fields| == 0 then []
    else if |fields| == 1 then fields[0]
    else fields[0] + [sep] + Join(fields[1..], sep)
  }

  /** Removes every empty field at the end of the list. */
  function DropTrailingEmpty(fields: seq<string>): (r: seq<string>)
    ensures |r| <= |fields| && r == fields[..|r|]
  {
    if fields == [] then []
    else if fields[|fields| - 1] == [] then DropTrailingEmpty(fields[..|fields| - 1])
    else fields
  }

  /** What `DropTrailingEmpty` removes is empty fields, and what it keeps
      does not end with one. */
  lemma {:induction false} DropTrailingEmptySpec(fields: seq<string>)
    ensures var r := DropTrailingEmpty(fields);
      (forall i :: |r| <= i < |fields| ==> fields[i] == []) && (r != [] ==> r[|r| - 1] != [])
  {
    if fields != [] && fields[|fields| - 1] == [] {
      DropTrailingEmptySpec(fields[..|fields| - 1]);
    }
  }

  /** `s.split(sep)` for a one-character separator string and no limit:
      trailing empty fields are dropped, leading and inner ones are kept. */
  function Split(s: string, sep: char): (fields: seq<string>)
    ensures var all := SplitAll(s, sep); |fields| <= |all| && fields == all[..|fields|]
  {
    DropTrailingEmpty(SplitAll(s, sep))
  }

  /** No field of `split` holds the separator, and the last one is not empty. */
  lemma SplitFields(s: string, sep: char)
    ensures SeparatorFree(Split(s, sep), sep)
    ensures var fields := Split(s, sep); fields != [] ==> fields[|fields| - 1] != []
  {
    var all := SplitAll(s, sep);
    SplitAllFields(s, sep);
    DropTrailingEmptySpec(all);
    var fields := DropTrailingEmpty(all);
    assert fields == Split(s, sep);
    forall i | 0 <= i < |fields|
      ensures sep !in fields[i]
    {
      assert fields[i] == all[i];
    }
  }

  /** Joining the fields of `SplitAll` gives back the original string. */
  lemma {:induction false} JoinSplitAll(s: string, sep: char)
    ensures Join(SplitAll(s, sep), sep) == s
  {
    if s != [] {
      var rest := SplitAll(s[1..], sep);
      JoinSplitAll(s[1..], sep);
      if s[0] == sep {
        assert SplitAll(s, sep) == [[]] + rest;
        assert ([[]] + rest)[1..] == rest;
      } else {
        var fields := SplitAll(s, sep);
        assert fields == [[s[0]] + rest[0]] + rest[1..];
        if |rest| == 1 {
          assert Join(fields, sep) == [s[0]] + rest[0];
        } else {
          assert fields[1..] == rest[1..];
          assert Join(fields, sep) == [s[0]] + (rest[0] + [sep] + Join(rest[1..], sep));
        }
        assert s == [s[0]] + s[1..];
      }
    }
  }

  /** Appending an empty field appends one separator. */
  lemma {:induction false} JoinSnocEmpty(fields: seq<string>, sep: char)
    requires fields != []
    ensures Join(fields + [[]], sep) == Join(fields, sep) + [sep]
  {
    if |fields| == 1 {
      assert Join(fields + [[]], sep) == fields[0] + [sep] + Join([[]], sep);
    } else {
      assert (fields + [[]])[1..] == fields[1..] + [[]];
      JoinSnocEmpty(fields[1..], sep);
    }
  }

  /** Dropping trailing empty fields removes only separators from the end
      of the joined text. */
  lemma {:induction false} JoinDropTrailingEmpty(fields: seq<string>, sep: char)
    ensures var j := Join(DropTrailingEmpty(fields), sep); var all := Join(fields, sep);
      |j| <= |all| && all[..|j|] == j && forall k :: |j| <= k < |all| ==> all[k] == sep
  {
    DropTrailingEmptySpec(fields);
    if fields != [] && fields[|fields| - 1] == [] {
      var init := fields[..|fields| - 1];
      assert fields == init + [[]];
      JoinDropTrailingEmpty(init, sep);
      if init != [] {
        JoinSnocEmpty(init, sep);
      }
    }
  }

  /** Round trip of `split`: joining its fields gives a prefix of `s`, and
      what is left of `s` after that prefix is separators only. Together
      with `SplitFields` this pins the fields down uniquely. */
  lemma SplitRoundTrip(s: string, sep: char)
    ensures var j := Join(Split(s, sep), sep);
      |j| <= |s| && s[..|j|] == j && forall k :: |j| <= k < |s| ==> s[k] == sep
  {
    JoinSplitAll(s, sep);
    JoinDropTrailingEmpty(SplitAll(s, sep), sep);
  }

  /** `split` returns no field at all exactly when `s` holds only separators
      (the empty string included). */
  lemma SplitEmptyIff(s: string, sep: char)
    ensures Split(s, sep) == [] <==> forall k :: 0 <= k < |s| ==> s[k] == sep
  {
    SplitRoundTrip(s, sep);
    if forall k :: 0 <= k < |s| ==> s[k] == sep {
      AllSeparatorsSplitAll(s, sep);
    }
  }

  /** A string of separators only splits into empty fields only, all dropped. */
  lemma {:induction false} AllSeparatorsSplitAll(s: string, sep: char)
    requires forall k :: 0 <= k < |s| ==> s[k] == sep
    ensures DropTrailingEmpty(SplitAll(s, sep)) == []
  {
    if s != [] {
      AllSeparatorsSplitAll(s[1..], sep);
      var rest := SplitAll(s[1..], sep);
      DropTrailingEmptyAllIff(rest);
      DropTrailingEmptyAllIff([[]] + rest);
    }
  }

  /** Dropping trailing empty fields leaves nothing exactly when every field is empty. */
  lemma {:induction false} DropTrailingEmptyAllIff(fields: seq<string>)
    ensures DropTrailingEmpty(fields) == [] <==> forall i :: 0 <= i < |fields| ==> fields[i] == []
  {
    if fields != [] {
      var init := fields[..|fields| - 1];
      DropTrailingEmptyAllIff(init);
      assert forall i :: 0 <= i < |init| ==> fields[i] == init[i];
    }
  }

  /** A string without whitespace is left alone by `gsub(/\s/, "")`. */
  lemma {:induction false} RemoveRegexSpaceUnchanged(s: string)
    requires forall k :: 0 <= k < |s| ==> !IsRegexSpace(s[k])
    ensures RemoveRegexSpace(s) == s
  {
    if s != [] {
      RemoveRegexSpaceUnchanged(s[1..]);
    }
  }

  /** A string without upper-case letters is left alone by `downcase`. */
  lemma DowncaseUnchanged(s: string)
    requires forall k :: 0 <= k < |s| ==> !IsUpper(s[k])
    ensures Downcase(s) == s
  {
    DowncaseSpec(s);
  }

  /** A string without the separator is one field. */
  lemma {:induction false} SplitAllNoSeparator(s: string, sep: char)
    requires sep !in s
    ensures SplitAll(s, sep) == [s]
  {
    if s != [] {
      SplitAllNoSeparator(s[1..], sep);
      assert [s[0]] + s[1..] == s;
    }
  }

  /** A separator ends the first field; the rest is split on its own. */
  lemma {:induction false} SplitAllAtSeparator(a: string, b: string, sep: char)
    requires sep !in a
    ensures SplitAll(a + [sep] + b, sep) == [a] + SplitAll(b, sep)
  {
    var s := a + [sep] + b;
    if a == [] {
      assert s[1..] == b;
    } else {
      assert s[1..] == a[1..] + [sep] + b;
      SplitAllAtSeparator(a[1..], b, sep);
      assert [a[0]] + a[1..] == a;
    }
  }
}
