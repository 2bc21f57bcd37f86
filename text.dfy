/** The JavaScript string operations the converter relies on:
    `includes`, `split` on one character, `join`, and upper-casing the first
    character (`charAt(0).toUpperCase() + slice(1)`). */
module Text {

  /** `sub` occurs in `s` starting at index `i`. */
  ghost predicate OccursAt(s: string, sub: string, i: nat) {
    i + |sub| <= |s| && s[i..i + |sub|] == sub
  }

  /** `sub` occurs somewhere in `s`. */
  ghost predicate Occurs(s: string, sub: string) {
    exists i: nat :: OccursAt(s, sub, i)
  }

  /** If `sub` is not a prefix of `s`, it occurs in `s` exactly when it
      occurs in `s` without its first character. */
  lemma OccursInTail(s: string, sub: string)
    requires |sub| <= |s| && s[..|sub|] != sub
    ensures 0 < |s| && (Occurs(s, sub) <==> Occurs(s[1..], sub))
  {
    if Occurs(s, sub) {
      var i: nat :| OccursAt(s, sub, i);
      assert i != 0;
      assert s[1..][i - 1..i - 1 + |sub|] == s[i..i + |sub|];
      assert OccursAt(s[1..], sub, i - 1);
    }
    if Occurs(s[1..], sub) {
      var i: nat :| OccursAt(s[1..], sub, i);
      assert s[1..][i..i + |sub|] == s[i + 1..i + 1 + |sub|];
      assert OccursAt(s, sub, i + 1);
    }
  }

  /** `s.includes(sub)`: case-sensitive substring test; the empty string
      occurs in every string. */
  function Contains(s: string, sub: string): (r: bool)
    ensures r <==> Occurs(s, sub)
    decreases |s|
  {
    if |s| < |sub| then false
    else if s[..|sub|] == sub then assert OccursAt(s, sub, 0); true
    else OccursInTail(s, sub); Contains(s[1..], sub)
  }

  /** A one-character string occurs exactly when the character does. */
  lemma ContainsChar(s: string, c: char)
    ensures Contains(s, [c]) <==> c in s
  {
    if c in s {
      var i :| 0 <= i < |s| && s[i] == c;
      assert s[i..i + 1] == [c];
      assert OccursAt(s, [c], i);
    }
    if Contains(s, [c]) {
      var i: nat :| OccursAt(s, [c], i);
      assert s[i] == s[i..i + 1][0];
    }
  }

  /** Substring containment is transitive. */
  lemma ContainsTransitive(s: string, mid: string, sub: string)
    requires Contains(s, mid) && Contains(mid, sub)
    ensures Contains(s, sub)
  {
    var i: nat :| OccursAt(s, mid, i);
    var j: nat :| OccursAt(mid, sub, j);
    forall k | 0 <= k < |sub|
      ensures s[i + j..i + j + |sub|][k] == sub[k]
    {
      assert sub[k] == mid[j..j + |sub|][k] == mid[j + k];
      assert mid[j + k] == s[i..i + |mid|][j + k] == s[i + j + k];
    }
    assert OccursAt(s, sub, i + j);
  }

  /** `a` occurs in `s` before `b` does. */
  predicate InOrder<T(==)>(s: seq<T>, a: T, b: T) {
    exists p, q :: 0 <= p < q < |s| && s[p] == a && s[q] == b
  }

  /** `parts.join(sep)`: the parts with `sep` between neighbours; `[].join`
      is the empty string. */
  function Join(parts: seq<string>, sep: string): string
  {
    if |parts| == 0 then ""
    else if |parts| == 1 then parts[0]
    else parts[0] + sep + Join(parts[1..], sep)
  }

  /** A character outside every part and outside the separator is outside
      the joined string. */
  lemma {:induction false} JoinAvoids(parts: seq<string>, sep: string, c: char)
    requires forall i | 0 <= i < |parts| :: c !in parts[i]
    requires c !in sep
    ensures c !in Join(parts, sep)
    decreases |parts|
  {
    if |parts| > 1 {
      JoinAvoids(parts[1..], sep, c);
    }
  }

  /** Every character of a part is a character of the joined string. */
  lemma {:induction false} JoinHasParts(parts: seq<string>, sep: string, i: nat, c: char)
    requires i < |parts|
    ensures c in parts[i] ==> c in Join(parts, sep)
    decreases |parts|
  {
    if i > 0 {
      JoinHasParts(parts[1..], sep, i - 1, c);
    }
  }

  /** `s.split(sep)` for a one-character separator: the maximal pieces of
      `s` between separators, empty pieces included. */
  function Split(s: string, sep: char): (parts: seq<string>)
    ensures |parts| >= 1
    ensures forall i | 0 <= i < |parts| :: sep !in parts[i]
    ensures Join(parts, [sep]) == s
    ensures sep in s <==> |parts| >= 2
    decreases |s|
  {
    if s == "" then [""]
    else
      var rest := Split(s[1..], sep);
      if s[0] == sep then
        assert s == [sep] + s[1..];
        [""] + rest
      else
        var parts := [[s[0]] + rest[0]] + rest[1..];
        JoinGlue(s[0], rest, [sep]);
        assert s == [s[0]] + s[1..];
        parts
  }

  /** Gluing a character onto the first part glues it onto the joined
      string. */
  lemma JoinGlue(c: char, parts: seq<string>, sep: string)
    requires |parts| >= 1
    ensures Join([[c] + parts[0]] + parts[1..], sep) == [c] + Join(parts, sep)
  {
    var glued := [[c] + parts[0]] + parts[1..];
    assert glued[1..] == parts[1..];
    if |parts| > 1 {
      calc {
        Join(glued, sep);
        ([c] + parts[0]) + sep + Join(parts[1..], sep);
        [c] + (parts[0] + sep + Join(parts[1..], sep));
      }
    }
  }

  /** Splitting `x + t` where `x` holds no separator glues `x` to the first
      piece of `t`. */
  lemma {:induction false} SplitAfterPlainPrefix(x: string, t: string, sep: char)
    requires sep !in x
    ensures Split(x + t, sep) == [x + Split(t, sep)[0]] + Split(t, sep)[1..]
    decreases |x|
  {
    if x != "" {
      var p := Split(t, sep);
      assert [x[0]] + (x[1..] + p[0]) == x + p[0] by {
        assert x == [x[0]] + x[1..];
      }
      var s := x + t;
      assert s[0] == x[0] && s[0] != sep;
      assert s[1..] == x[1..] + t;
      SplitAfterPlainPrefix(x[1..], t, sep);
      var rest := Split(s[1..], sep);
      assert rest == [x[1..] + p[0]] + p[1..];
      assert Split(s, sep) == [[s[0]] + rest[0]] + rest[1..];
    } else {
      var p := Split(t, sep);
      assert x + t == t;
      assert x + p[0] == p[0];
      assert p == [p[0]] + p[1..];
    }
  }

  /** Splitting is the inverse of joining, when no part holds the separator. */
  lemma {:induction false} SplitJoin(parts: seq<string>, sep: char)
    requires |parts| >= 1
    requires forall i | 0 <= i < |parts| :: sep !in parts[i]
    ensures Split(Join(parts, [sep]), sep) == parts
    decreases |parts|
  {
    if |parts| == 1 {
      SplitPlain(parts[0], sep);
    } else {
      SplitJoin(parts[1..], sep);
      SplitJoinStep(parts, sep);
    }
  }

  /** A string without the separator splits into itself. */
  lemma SplitPlain(x: string, sep: char)
    requires sep !in x
    ensures Split(x, sep) == [x]
  {
    SplitAfterPlainPrefix(x, "", sep);
    assert x + "" == x;
    assert Split("", sep) == [""];
  }

  /** Joining two or more parts puts the separator after the first. */
  lemma JoinCons(parts: seq<string>, sep: string)
    requires |parts| >= 2
    ensures Join(parts, sep) == parts[0] + (sep + Join(parts[1..], sep))
  {
  }

  /** A leading separator splits off an empty first piece. */
  lemma SplitAfterSeparator(t: string, sep: char)
    ensures Split([sep] + t, sep) == [""] + Split(t, sep)
  {
    var s := [sep] + t;
    assert s[0] == sep && s[1..] == t;
  }

  /** One step of `SplitJoin`: a first part in front of a joined tail that
      splits back into its parts. */
  lemma SplitJoinStep(parts: seq<string>, sep: char)
    requires |parts| >= 2 && sep !in parts[0]
    requires Split(Join(parts[1..], [sep]), sep) == parts[1..]
    ensures Split(Join(parts, [sep]), sep) == parts
  {
    var tail := Join(parts[1..], [sep]);
    var rest := [sep] + tail;
    JoinCons(parts, [sep]);
    SplitAfterSeparator(tail, sep);
    var p := Split(rest, sep);
    assert p[0] == "" && p[1..] == parts[1..];
    SplitAfterPlainPrefix(parts[0], rest, sep);
    assert parts[0] + "" == parts[0];
    assert parts == [parts[0]] + parts[1..];
  }

  /** `toUpperCase` on one character, for the ASCII letters a-z; every other
      character is left as it is. */
  function UpperChar(c: char): (u: char)
    ensures 'a' <= c <= 'z' ==> 'A' <= u <= 'Z' && u as int == c as int - 32
    ensures !('a' <= c <= 'z') ==> u == c
  {
    if 'a' <= c <= 'z' then (c as int - 32) as char else c
  }

  /** `s.charAt(0).toUpperCase() + s.slice(1)`. */
  function Capitalize(s: string): (c: string)
    ensures |c| == |s|
    ensures s != "" ==> c[0] == UpperChar(s[0]) && c[1..] == s[1..]
  {
    if s == "" then "" else [UpperChar(s[0])] + s[1..]
  }

  /** Upper-casing is idempotent, on a character and on a capitalised
      string. */
  lemma CapitalizeIdempotent(s: string)
    ensures Capitalize(Capitalize(s)) == Capitalize(s)
    ensures s != "" ==> UpperChar(Capitalize(s)[0]) == Capitalize(s)[0]
  {
  }
}
