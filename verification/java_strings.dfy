/** `java.lang.String` operations used by the configuration parser:
    `trim()`, `split(String)` with a one-character literal pattern, and the
    text that string concatenation produces for a possibly-null operand. */
module JavaStrings {
  import opened JavaLang

  /** `trim()` removes every character whose code is at most U+0020. */
  predicate IsSpace(ch: char)
  {
    ch <= ' '
  }

  /** A string that `trim()` leaves as it is. */
  predicate Unpadded(s: string)
  {
    s == [] || (!IsSpace(s[0]) && !IsSpace(s[|s| - 1]))
  }

  predicate AllSpace(s: string)
  {
    forall k :: 0 <= k < |s| ==> IsSpace(s[k])
  }

  /** Drops the leading spaces. */
  function TrimStart(s: string): string
    decreases |s|
  {
    if s != [] && IsSpace(s[0]) then TrimStart(s[1..]) else s
  }

  /** Drops the trailing spaces. */
  function TrimEnd(s: string): string
    decreases |s|
  {
    if s != [] && IsSpace(s[|s| - 1]) then TrimEnd(s[..|s| - 1]) else s
  }

  /** `String.trim()`. */
  function Trim(s: string): string
  {
    TrimEnd(TrimStart(s))
  }

  /** `TrimStart` keeps the longest suffix that does not start with a space,
      and everything it drops is a space. */
  lemma {:induction false} TrimStartSpec(s: string)
    ensures var r := TrimStart(s);
      && |r| <= |s| && r == s[|s| - |r|..]
      && (forall k :: 0 <= k < |s| - |r| ==> IsSpace(s[k]))
      && (r != [] ==> !IsSpace(r[0]))
    decreases |s|
  {
    if s != [] && IsSpace(s[0]) {
      TrimStartSpec(s[1..]);
      var r := TrimStart(s[1..]);
      assert s[1..][|s| - 1 - |r|..] == s[|s| - |r|..];
      forall k | 1 <= k < |s| - |r|
        ensures IsSpace(s[k])
      {
        assert s[k] == s[1..][k - 1];
      }
    }
  }

  /** `TrimEnd` keeps the longest prefix that does not end with a space, and
      everything it drops is a space. */
  lemma {:induction false} TrimEndSpec(s: string)
    ensures var r := TrimEnd(s);
      && |r| <= |s| && r == s[..|r|]
      && (forall k :: |r| <= k < |s| ==> IsSpace(s[k]))
      && (r != [] ==> !IsSpace(r[|r| - 1]))
    decreases |s|
  {
    if s != [] && IsSpace(s[|s| - 1]) {
      TrimEndSpec(s[..|s| - 1]);
      var r := TrimEnd(s[..|s| - 1]);
      assert s[..|s| - 1][..|r|] == s[..|r|];
      forall k | |r| <= k < |s| - 1
        ensures IsSpace(s[k])
      {
        assert s[k] == s[..|s| - 1][k];
      }
    }
  }

  /** `trim()` never returns a string that starts or ends with a space. */
  lemma TrimIsUnpadded(s: string)
    ensures Unpadded(Trim(s)) && |Trim(s)| <= |s|
  {
    TrimStartSpec(s);
    TrimEndSpec(TrimStart(s));
  }

  /** `trim()` yields the empty string exactly for strings made only of
      spaces and control characters. */
  lemma TrimEmptyIff(s: string)
    ensures Trim(s) == [] <==> AllSpace(s)
  {
    TrimStartSpec(s);
    var t := TrimStart(s);
    TrimEndSpec(t);
    if t != [] {
      assert t[0] == s[|s| - |t|];
      assert !IsSpace(t[0]);
    }
  }

  lemma TrimStartOfPadded(pre: string, rest: string)
    requires AllSpace(pre)
    requires rest == [] || !IsSpace(rest[0])
    ensures TrimStart(pre + rest) == rest
  {
    var s := pre + rest;
    TrimStartSpec(s);
    var r := TrimStart(s);
    if r != [] {
      assert r[0] == s[|s| - |r|];
    }
    if rest != [] {
      assert s[|pre|] == rest[0];
    }
    assert s[|s| - |rest|..] == rest;
  }

  lemma TrimEndOfPadded(rest: string, post: string)
    requires AllSpace(post)
    requires rest == [] || !IsSpace(rest[|rest| - 1])
    ensures TrimEnd(rest + post) == rest
  {
    var s := rest + post;
    TrimEndSpec(s);
    var r := TrimEnd(s);
    if r != [] {
      assert r[|r| - 1] == s[|r| - 1];
    }
    if rest != [] {
      assert s[|rest| - 1] == rest[|rest| - 1];
    }
    assert s[..|rest|] == rest;
  }

  /** `trim()` returns exactly the unpadded core of a string padded on both
      sides with spaces; in particular it is the identity on unpadded
      strings. */
  lemma TrimOfPadded(pre: string, v: string, post: string)
    requires AllSpace(pre) && AllSpace(post)
    requires Unpadded(v)
    ensures Trim(pre + v + post) == v
  {
    if v == [] {
      assert pre + v + post == pre + post;
      assert AllSpace(pre + post) by {
        forall k | 0 <= k < |pre + post|
          ensures IsSpace((pre + post)[k])
        {
          if k >= |pre| {
            assert (pre + post)[k] == post[k - |pre|];
          }
        }
      }
      TrimEmptyIff(pre + post);
    } else {
      assert pre + v + post == pre + (v + post);
      TrimStartOfPadded(pre, v + post);
      TrimEndOfPadded(v, post);
    }
  }

  /** `trim()` leaves an unpadded string as it is. */
  lemma TrimUnpadded(s: string)
    requires Unpadded(s)
    ensures Trim(s) == s
  {
    assert [] + s + [] == s;
    TrimOfPadded([], s, []);
  }

  lemma TrimIdempotent(s: string)
    ensures Trim(Trim(s)) == Trim(s)
  {
    TrimIsUnpadded(s);
    TrimUnpadded(Trim(s));
  }

  /** Position of the first occurrence of `c` in `s`. */
  function IndexOf(s: string, c: char): (i: nat)
    requires c in s
    ensures i < |s|
  {
    if s[0] == c then 0 else 1 + IndexOf(s[1..], c)
  }

  lemma {:induction false} IndexOfSpec(s: string, c: char)
    requires c in s
    ensures s[IndexOf(s, c)] == c
    ensures forall k :: 0 <= k < IndexOf(s, c) ==> s[k] != c
    decreases |s|
  {
    if s[0] != c {
      IndexOfSpec(s[1..], c);
      forall k | 1 <= k < IndexOf(s, c)
        ensures s[k] != c
      {
        assert s[k] == s[1..][k - 1];
      }
    }
  }

  /** Glues pieces back together with `sep` between neighbours. */
  function Join(parts: seq<string>, sep: char): string
  {
    if |parts| == 0 then []
    else if |parts| == 1 then parts[0]
    else parts[0] + [sep] + Join(parts[1..], sep)
  }

  /** Every piece between occurrences of `sep`, empty pieces included: the
      split before Java discards anything. */
  function RawSplit(s: string, sep: char): seq<string>
    decreases |s|
  {
    if sep !in s then [s]
    else
      var i := IndexOf(s, sep);
      [s[..i]] + RawSplit(s[i + 1..], sep)
  }

  /** There is one more piece than separators; the pieces contain no
      separator, and gluing them back with the separator gives the original
      string. */
  lemma {:induction false} RawSplitJoins(s: string, sep: char)
    ensures |RawSplit(s, sep)| >= 1
    ensures sep in s <==> |RawSplit(s, sep)| >= 2
    ensures forall k :: 0 <= k < |RawSplit(s, sep)| ==> sep !in RawSplit(s, sep)[k]
    ensures Join(RawSplit(s, sep), sep) == s
    decreases |s|
  {
    var parts := RawSplit(s, sep);
    if sep in s {
      var i := IndexOf(s, sep);
      IndexOfSpec(s, sep);
      var rest := RawSplit(s[i + 1..], sep);
      RawSplitJoins(s[i + 1..], sep);
      assert parts == [s[..i]] + rest;
      assert |rest| >= 1 && parts[1..] == rest && parts[0] == s[..i];
      assert sep !in s[..i];
      assert Join(parts, sep) == s[..i] + [sep] + Join(rest, sep);
      assert s == s[..i] + [sep] + s[i + 1..];
      forall k | 0 <= k < |parts|
        ensures sep !in parts[k]
      {
        if k > 0 {
          assert parts[k] == rest[k - 1];
        }
      }
    } else {
      assert parts == [s];
    }
  }

  /** Removes the empty pieces at the end, as `split` with limit 0 does. */
  function DropTrailingEmpty(parts: seq<string>): seq<string>
  {
    if |parts| > 0 && parts[|parts| - 1] == [] then DropTrailingEmpty(parts[..|parts| - 1])
    else parts
  }

  /** What is kept is a prefix ending in a non-empty piece, and only empty
      pieces were removed. */
  lemma {:induction false} DropTrailingEmptySpec(parts: seq<string>)
    ensures var r := DropTrailingEmpty(parts);
      && |r| <= |parts| && r == parts[..|r|]
      && (r == [] || r[|r| - 1] != [])
      && (forall k :: |r| <= k < |parts| ==> parts[k] == [])
  {
    if |parts| > 0 && parts[|parts| - 1] == [] {
      var shorter := parts[..|parts| - 1];
      DropTrailingEmptySpec(shorter);
      var r := DropTrailingEmpty(shorter);
      assert shorter[..|r|] == parts[..|r|];
      forall k | |r| <= k < |parts| - 1
        ensures parts[k] == []
      {
        assert parts[k] == shorter[k];
      }
    }
  }

  /** `s.split(String.valueOf(sep))`: when the separator does not occur the
      result is `[s]` itself; otherwise leading empty pieces are kept and
      trailing ones dropped. */
  function Split(s: string, sep: char): seq<string>
  {
    if sep !in s then [s] else DropTrailingEmpty(RawSplit(s, sep))
  }

  /** Exactly two pieces come back iff the raw split has a non-empty second
      piece and nothing but empty pieces after it; the two pieces are then
      the first two raw ones. */
  lemma SplitPairIff(s: string, sep: char)
    ensures var raw := RawSplit(s, sep);
      |Split(s, sep)| == 2 <==>
        (|raw| >= 2 && raw[1] != [] && forall k :: 2 <= k < |raw| ==> raw[k] == [])
    ensures |Split(s, sep)| == 2 ==> Split(s, sep) == RawSplit(s, sep)[..2]
  {
    var raw := RawSplit(s, sep);
    RawSplitJoins(s, sep);
    if sep in s {
      var r := DropTrailingEmpty(raw);
      DropTrailingEmptySpec(raw);
      if |raw| >= 2 && raw[1] != [] && forall k :: 2 <= k < |raw| ==> raw[k] == [] {
        assert raw[1] != [];
        if r != [] {
          assert r[|r| - 1] == raw[|r| - 1];
        }
      }
    }
  }

  /** A line of the form `a=b`, with no `=` in `a` or `b` and `b` non-empty,
      splits into `[a, b]`. */
  lemma SplitPair(a: string, b: string, sep: char)
    requires sep !in a && sep !in b && b != []
    ensures Split(a + [sep] + b, sep) == [a, b]
  {
    var s := a + [sep] + b;
    assert s[|a|] == sep;
    assert s[..|a|] == a;
    IndexOfSpec(s, sep);
    assert forall k :: 0 <= k < |a| ==> s[k] == a[k];
    assert IndexOf(s, sep) == |a|;
    assert s[|a| + 1..] == b;
    assert RawSplit(s, sep) == [a, b];
  }

  /** Splitting at the first separator: the piece before it comes first. */
  lemma RawSplitAfter(a: string, rest: string, sep: char)
    requires sep !in a
    ensures RawSplit(a + [sep] + rest, sep) == [a] + RawSplit(rest, sep)
  {
    var s := a + [sep] + rest;
    assert s[|a|] == sep;
    assert s[..|a|] == a;
    IndexOfSpec(s, sep);
    assert forall k :: 0 <= k < |a| ==> s[k] == a[k];
    assert IndexOf(s, sep) == |a|;
    assert s[|a| + 1..] == rest;
  }

  /** The text Java's string concatenation produces for a possibly-null
      operand. */
  function StringOf(s: Option<string>): string
  {
    match s
    case Some(v) => v
    case None => "null"
  }
}
