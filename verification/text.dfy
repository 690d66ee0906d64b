/** String operations from Python's standard library that the archive
    synchroniser relies on: splitting on the character class `[.-]` with
    `re.split`, and `str.replace`. Strings are sequences of characters. */
module Text {

  /** A character of the class `[.-]`. */
  predicate IsSep(c: char) {
    c == '.' || c == '-'
  }

  /** No character of `s` is a separator. */
  predicate NoSep(s: string) {
    forall k :: 0 <= k < |s| ==> !IsSep(s[k])
  }

  /** Every character of `cs` is a separator. */
  predicate AllSep(cs: string) {
    forall k :: 0 <= k < |cs| ==> IsSep(cs[k])
  }

  /** The separators occurring in `s`, in order. */
  function Seps(s: string): (cs: string)
    ensures AllSep(cs)
    ensures |cs| <= |s|
  {
    if s == [] then []
    else (if IsSep(s[0]) then [s[0]] else []) + Seps(s[1..])
  }

  /** A separator-free string has no separators to report. */
  lemma {:induction false} SepsOfNoSep(s: string)
    requires NoSep(s)
    ensures Seps(s) == []
    decreases |s|
  {
    if s != [] {
      assert NoSep(s[1..]) by {
        assert forall k :: 0 <= k < |s| - 1 ==> s[1..][k] == s[k + 1];
      }
      SepsOfNoSep(s[1..]);
    }
  }

  /** `fields[0] + seps[0] + fields[1] + ... + seps[n-1] + fields[n]`:
      the inverse of splitting. */
  function Interleave(fields: seq<string>, seps: string): string
    requires |fields| == |seps| + 1
    decreases |seps|
  {
    if seps == [] then fields[0]
    else fields[0] + [seps[0]] + Interleave(fields[1..], seps[1..])
  }

  /** Prefixing the first piece prefixes the joined name. */
  lemma {:induction false} InterleavePrefix(p: string, fields: seq<string>, seps: string)
    requires |fields| == |seps| + 1
    ensures Interleave([p + fields[0]] + fields[1..], seps) == p + Interleave(fields, seps)
  {
    var fs := [p + fields[0]] + fields[1..];
    assert fs[1..] == fields[1..];
  }

  /** `re.split("[.-]", s)`: the maximal separator-free pieces of `s`, one
      more than there are separators (empty pieces included). */
  function Split(s: string): (fields: seq<string>)
    ensures |fields| == |Seps(s)| + 1
    ensures forall k :: 0 <= k < |fields| ==> NoSep(fields[k])
    ensures Interleave(fields, Seps(s)) == s
    decreases |s|
  {
    if s == [] then [""]
    else
      var rest := Split(s[1..]);
      assert [s[0]] + s[1..] == s;
      if IsSep(s[0]) then
        assert ([""] + rest)[1..] == rest;
        [""] + rest
      else
        assert Seps(s) == Seps(s[1..]);
        InterleavePrefix([s[0]], rest, Seps(s[1..]));
        GlueNoSep(s[0], rest[0]);
        [[s[0]] + rest[0]] + rest[1..]
  }

  /** A non-separator glued to a separator-free piece leaves it
      separator-free. */
  lemma GlueNoSep(c: char, t: string)
    requires !IsSep(c) && NoSep(t)
    ensures NoSep([c] + t)
  {
    assert forall k :: 1 <= k < |t| + 1 ==> ([c] + t)[k] == t[k - 1];
  }

  /** Splitting a separator-free prefix `a` glues it to the first piece. */
  lemma {:induction false} SplitNoSepPrefix(a: string, t: string)
    requires NoSep(a)
    ensures Split(a + t) == [a + Split(t)[0]] + Split(t)[1..]
    decreases |a|
  {
    if a != [] {
      assert (a + t)[1..] == a[1..] + t;
      SplitNoSepPrefix(a[1..], t);
      assert [a[0]] + (a[1..] + Split(t)[0]) == a + Split(t)[0];
    } else {
      assert a + t == t;
      assert a + Split(t)[0] == Split(t)[0];
    }
  }

  /** Splitting is the inverse of interleaving: separator-free fields joined
      by separators split back into exactly those fields. */
  lemma {:induction false} SplitInterleave(fields: seq<string>, seps: string)
    requires |fields| == |seps| + 1
    requires forall k :: 0 <= k < |fields| ==> NoSep(fields[k])
    requires AllSep(seps)
    ensures Split(Interleave(fields, seps)) == fields
    decreases |seps|
  {
    if seps == [] {
      SplitNoSepPrefix(fields[0], []);
      assert fields[0] + [] == fields[0];
    } else {
      var x := Interleave(fields[1..], seps[1..]);
      SplitInterleave(fields[1..], seps[1..]);
      assert fields[0] + [seps[0]] + x == fields[0] + ([seps[0]] + x);
      SplitNoSepPrefix(fields[0], [seps[0]] + x);
      assert ([seps[0]] + x)[1..] == x;
      assert Split([seps[0]] + x) == [""] + fields[1..];
      assert fields[0] + "" == fields[0];
    }
  }

  /** Three pieces joined by two separators are the pieces and separators
      in alternation. */
  lemma InterleaveThree(a: string, c1: char, b: string, c2: char, c: string)
    ensures Interleave([a, b, c], [c1, c2]) == a + [c1] + b + [c2] + c
  {
    var fields := [a, b, c];
    var seps := [c1, c2];
    assert fields[1..] == [b, c] && fields[1..][1..] == [c];
    assert seps[1..] == [c2] && seps[1..][1..] == [];
    assert Interleave([c], []) == c;
    assert Interleave([b, c], [c2]) == b + [c2] + c;
  }

  /** A name made of three separator-free pieces joined by two separators
      splits into exactly those three pieces. */
  lemma {:induction false} SplitThree(a: string, c1: char, b: string, c2: char, c: string)
    requires NoSep(a) && NoSep(b) && NoSep(c) && IsSep(c1) && IsSep(c2)
    ensures Split(a + [c1] + b + [c2] + c) == [a, b, c]
  {
    InterleaveThree(a, c1, b, c2, c);
    SplitInterleave([a, b, c], [c1, c2]);
  }

  /** `pat` occurs in `s` at position `p`. */
  predicate OccursAt(s: string, pat: string, p: nat) {
    p + |pat| <= |s| && s[p..p + |pat|] == pat
  }

  /** `s.replace(pat, rep)`: every occurrence of `pat`, found left to right
      without overlap, is replaced by `rep`. */
  function ReplaceAll(s: string, pat: string, rep: string): string
    requires pat != []
    decreases |s|
  {
    if |s| < |pat| then s
    else if s[..|pat|] == pat then rep + ReplaceAll(s[|pat|..], pat, rep)
    else [s[0]] + ReplaceAll(s[1..], pat, rep)
  }

  /** A string where `pat` does not occur is returned unchanged. */
  lemma {:induction false} ReplaceAbsent(s: string, pat: string, rep: string)
    requires pat != []
    requires forall p: nat :: !OccursAt(s, pat, p)
    ensures ReplaceAll(s, pat, rep) == s
    decreases |s|
  {
    if |pat| <= |s| {
      assert !OccursAt(s, pat, 0);
      ReplaceSkip(s, pat, rep);
      forall p: nat
        ensures !OccursAt(s[1..], pat, p)
      {
        assert !OccursAt(s, pat, p + 1);
        if p + |pat| <= |s[1..]| {
          assert s[1..][p..p + |pat|] == s[p + 1..p + 1 + |pat|];
        }
      }
      ReplaceAbsent(s[1..], pat, rep);
      assert [s[0]] + s[1..] == s;
    }
  }

  /** When no character of `a` starts `pat`, `pat` occurs in `a + pat`
      only as its suffix, and replacing rewrites exactly that suffix. */
  lemma {:induction false} ReplaceSuffix(a: string, pat: string, rep: string)
    requires pat != []
    requires forall k :: 0 <= k < |a| ==> a[k] != pat[0]
    ensures ReplaceAll(a + pat, pat, rep) == a + rep
    decreases |a|
  {
    if a == [] {
      ReplaceWhole(pat, rep);
      assert a + pat == pat && a + rep == rep;
    } else {
      var s := a + pat;
      assert s[0] == a[0] != pat[0];
      assert !OccursAt(s, pat, 0);
      ReplaceSkip(s, pat, rep);
      ReplaceSuffix(a[1..], pat, rep);
      assert s[1..] == a[1..] + pat;
      assert [s[0]] + (a[1..] + rep) == a + rep;
    }
  }

  /** Replacing in `pat` itself gives `rep`. */
  lemma ReplaceWhole(pat: string, rep: string)
    requires pat != []
    ensures ReplaceAll(pat, pat, rep) == rep
  {
    assert pat[..|pat|] == pat;
    assert pat[|pat|..] == [];
    assert rep + [] == rep;
  }

  /** Where `pat` does not occur at the front, the first character is kept. */
  lemma ReplaceSkip(s: string, pat: string, rep: string)
    requires pat != [] && |pat| <= |s| && !OccursAt(s, pat, 0)
    ensures ReplaceAll(s, pat, rep) == [s[0]] + ReplaceAll(s[1..], pat, rep)
  {
    assert s[..|pat|] == s[0..|pat|];
  }
}
