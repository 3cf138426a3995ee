/**
 * The few `java.lang.String` operations the engine relies on, with a literal
 * (metacharacter-free) pattern: prefix tests, `replaceFirst`, `replaceAll`,
 * `split` on one character, commons-lang `StringUtils.join`, and ASCII case
 * folding.
 */
module Strings {

  predicate StartsWith(s: string, p: string) {
    |p| <= |s| && s[..|p|] == p
  }

  /** `p` occurs somewhere in `s`. */
  predicate Contains(s: string, p: string)
    decreases |s|
  {
    StartsWith(s, p) || (s != [] && Contains(s[1..], p))
  }

  /** A character that does not occur is not contained as a one-character pattern. */
  lemma {:induction false} CharAbsentNotContained(s: string, c: char)
    requires c !in s
    ensures !Contains(s, [c])
    decreases |s|
  {
    if s != [] {
      assert s[0] != c;
      CharAbsentNotContained(s[1..], c);
    }
  }

  /** The position of the first `c` in `s`, or `|s|` when there is none. */
  function FirstIndex(s: string, c: char): nat
    decreases |s|
  {
    if s == [] || s[0] == c then 0 else 1 + FirstIndex(s[1..], c)
  }

  lemma {:induction false} FirstIndexAfterPlain(a: string, c: char, x: string)
    requires c !in a
    ensures FirstIndex(a + [c] + x, c) == |a|
    decreases |a|
  {
    if a != [] {
      assert (a + [c] + x)[1..] == a[1..] + [c] + x;
      FirstIndexAfterPlain(a[1..], c, x);
    }
  }

  /** `s.replaceFirst(p, r)` for a pattern `p` without regex metacharacters. */
  function ReplaceFirst(s: string, p: string, r: string): string
    requires p != []
    decreases |s|
  {
    if StartsWith(s, p) then r + s[|p|..]
    else if s == [] then []
    else [s[0]] + ReplaceFirst(s[1..], p, r)
  }

  /** `s.replaceAll(p, r)` for a pattern `p` without regex metacharacters: left to right, non-overlapping. */
  function ReplaceAll(s: string, p: string, r: string): string
    requires p != []
    decreases |s|
  {
    if s == [] then []
    else if StartsWith(s, p) then r + ReplaceAll(s[|p|..], p, r)
    else [s[0]] + ReplaceAll(s[1..], p, r)
  }

  lemma {:induction false} ReplaceFirstWithoutMatch(s: string, p: string, r: string)
    requires p != [] && !Contains(s, p)
    ensures ReplaceFirst(s, p, r) == s
    decreases |s|
  {
    if s != [] {
      ReplaceFirstWithoutMatch(s[1..], p, r);
    }
  }

  lemma {:induction false} ReplaceAllWithoutMatch(s: string, p: string, r: string)
    requires p != [] && !Contains(s, p)
    ensures ReplaceAll(s, p, r) == s
    decreases |s|
  {
    if s != [] {
      ReplaceAllWithoutMatch(s[1..], p, r);
    }
  }

  /** Replacing every occurrence of one character by text free of it leaves no occurrence. */
  lemma {:induction false} ReplaceAllCharGone(s: string, c: char, r: string)
    requires c !in r
    ensures c !in ReplaceAll(s, [c], r)
    decreases |s|
  {
    if s != [] {
      if StartsWith(s, [c]) {
        ReplaceAllCharGone(s[1..], c, r);
      } else {
        assert s[0] != c;
        ReplaceAllCharGone(s[1..], c, r);
      }
    }
  }

  /** commons-lang `StringUtils.join(parts, sep)`: the parts with `sep` between neighbours. */
  function Join(parts: seq<string>, sep: string): string
    decreases |parts|
  {
    if parts == [] then ""
    else if |parts| == 1 then parts[0]
    else parts[0] + sep + Join(parts[1..], sep)
  }

  /** Every field between occurrences of `d`, empty ones included (Java's `split` with a negative limit). */
  function Fields(s: string, d: char): (r: seq<string>)
    ensures |r| >= 1
    decreases |s|
  {
    if s == [] then [""]
    else
      var rest := Fields(s[1..], d);
      if s[0] == d then [""] + rest
      else [[s[0]] + rest[0]] + rest[1..]
  }

  /** Java's `s.split(d)` for a one-character literal: no match gives `[s]`, otherwise trailing empty fields are dropped. */
  function JavaSplit(s: string, d: char): seq<string> {
    if d !in s then [s] else DropTrailingEmpty(Fields(s, d))
  }

  function DropTrailingEmpty(xs: seq<string>): seq<string>
    decreases |xs|
  {
    if xs == [] then []
    else if xs[|xs| - 1] == "" then DropTrailingEmpty(xs[..|xs| - 1])
    else xs
  }

  /** The fields never contain the separator, and joining them back with it gives the original string. */
  lemma {:induction false} FieldsJoin(s: string, d: char)
    ensures Join(Fields(s, d), [d]) == s
    ensures forall k :: 0 <= k < |Fields(s, d)| ==> d !in Fields(s, d)[k]
    decreases |s|
  {
    if s != [] {
      var rest := Fields(s[1..], d);
      FieldsJoin(s[1..], d);
      if s[0] == d {
        assert Fields(s, d) == [""] + rest;
        assert Join([""] + rest, [d]) == "" + [d] + Join(rest, [d]);
      } else {
        var r := Fields(s, d);
        assert r == [[s[0]] + rest[0]] + rest[1..];
        if |rest| == 1 {
          assert r == [[s[0]] + rest[0]];
        } else {
          assert Join(r, [d]) == [s[0]] + rest[0] + [d] + Join(rest[1..], [d]);
          assert Join(rest, [d]) == rest[0] + [d] + Join(rest[1..], [d]);
        }
        forall k | 0 <= k < |r| ensures d !in r[k] {
          if k > 0 { assert r[k] == rest[k]; }
        }
      }
    }
  }

  /** Splitting a join of separator-free parts gives the parts back. */
  lemma {:induction false} JoinFields(parts: seq<string>, d: char)
    requires parts != []
    requires forall k :: 0 <= k < |parts| ==> d !in parts[k]
    ensures Fields(Join(parts, [d]), d) == parts
    decreases |parts|
  {
    if |parts| == 1 {
      FieldsOfPlain(parts[0], d);
    } else {
      var rest := Join(parts[1..], [d]);
      assert Join(parts, [d]) == parts[0] + [d] + rest;
      JoinFields(parts[1..], d);
      FieldsAppend(parts[0], rest, d);
      FieldsOfPlain(parts[0], d);
      assert [parts[0]] + parts[1..] == parts;
    }
  }

  lemma {:induction false} FieldsOfPlain(s: string, d: char)
    requires d !in s
    ensures Fields(s, d) == [s]
    decreases |s|
  {
    if s != [] {
      assert s[0] != d && d !in s[1..];
      FieldsOfPlain(s[1..], d);
      assert [s[0]] + s[1..] == s;
    }
  }

  /** The fields of `a` + d + `b` are those of `a` followed by those of `b`. */
  lemma {:induction false} FieldsAppend(a: string, b: string, d: char)
    ensures Fields(a + [d] + b, d) == Fields(a, d) + Fields(b, d)
    decreases |a|
  {
    if a == [] {
      assert a + [d] + b == [d] + b;
      assert ([d] + b)[1..] == b;
    } else {
      assert (a + [d] + b)[1..] == a[1..] + [d] + b;
      FieldsAppend(a[1..], b, d);
    }
  }

  /** Java's `Character.toLowerCase` restricted to ASCII letters. */
  function LowerChar(c: char): char {
    if 'A' <= c <= 'Z' then (c as int + 32) as char else c
  }

  function ToLower(s: string): string {
    seq(|s|, i requires 0 <= i < |s| => LowerChar(s[i]))
  }

  /** `a.equalsIgnoreCase(b)`, ASCII only. */
  predicate EqualsIgnoreCase(a: string, b: string) {
    |a| == |b| && forall i :: 0 <= i < |a| ==> LowerChar(a[i]) == LowerChar(b[i])
  }

  /** Lower-casing then comparing with a lower-case literal is the same test as comparing ignoring case. */
  lemma ToLowerEqualsIff(s: string, t: string)
    requires ToLower(t) == t
    ensures ToLower(s) == t <==> EqualsIgnoreCase(s, t)
  {
    if EqualsIgnoreCase(s, t) {
      assert forall i :: 0 <= i < |s| ==> ToLower(s)[i] == ToLower(t)[i];
    }
    if ToLower(s) == t {
      assert forall i :: 0 <= i < |s| ==> LowerChar(s[i]) == ToLower(t)[i];
    }
  }
}
