/** Braces in archive comments: doubled when a backup is scheduled, because borg substitutes
    placeholders (plinth/modules/backups/schedule.py), and collapsed again for versions of borg
    that do not (plinth/modules/backups/privileged.py). */
module CommentEscape {

  /** Python's `s.replace(c, cc)`. */
  function Doubled(s: string, c: char): string {
    if s == [] then [] else (if s[0] == c then [c, c] else [s[0]]) + Doubled(s[1..], c)
  }

  /** Python's `s.replace(cc, c)`: left to right, without overlap. */
  function Halved(s: string, c: char): string {
    if |s| < 2 then s
    else if s[0] == c && s[1] == c then [c] + Halved(s[2..], c)
    else [s[0]] + Halved(s[1..], c)
  }

  function Serialized(comment: string): string {
    Doubled(Doubled(comment, '{'), '}')
  }

  function Unescaped(comment: string): string {
    Halved(Halved(comment, '{'), '}')
  }

  lemma {:induction false} HalvedDoubled(s: string, c: char)
    ensures Halved(Doubled(s, c), c) == s
  {
    if s != [] {
      var rest := Doubled(s[1..], c);
      HalvedDoubled(s[1..], c);
      if s[0] == c {
        assert ([c, c] + rest)[2..] == rest;
      } else {
        assert ([s[0]] + rest)[1..] == rest;
      }
    }
  }

  lemma HalvedCons(x: char, s: string, c: char)
    requires x != c || s == [] || s[0] != c
    ensures Halved([x] + s, c) == [x] + Halved(s, c)
  {
    assert ([x] + s)[1..] == s;
  }

  lemma HalvedPair(s: string, c: char)
    ensures Halved([c, c] + s, c) == [c] + Halved(s, c)
  {
    assert ([c, c] + s)[2..] == s;
  }

  lemma DoubledCons(x: char, s: string, c: char)
    ensures Doubled([x] + s, c) == (if x == c then [c, c] else [x]) + Doubled(s, c)
  {
    assert ([x] + s)[1..] == s;
  }

  /** Collapsing one brace does not see whether the other is doubled. */
  lemma {:induction false} HalvedIgnoresOther(s: string, c: char, d: char)
    requires c != d
    ensures Halved(Doubled(s, d), c) == Doubled(Halved(s, c), d)
    decreases |s|
  {
    if s != [] {
      var x, rest := s[0], s[1..];
      assert s == [x] + rest;
      if x == c && rest != [] && rest[0] == c {
        PairIgnoresOther(rest[1..], c, d);
        HalvedIgnoresOther(rest[1..], c, d);
        assert s == [c, c] + rest[1..];
      } else {
        HalvedIgnoresOther(rest, c, d);
        SingleIgnoresOther(x, rest, c, d);
      }
    }
  }

  lemma SingleIgnoresOther(x: char, s: string, c: char, d: char)
    requires c != d && (x != c || s == [] || s[0] != c)
    ensures Halved(Doubled([x] + s, d), c) == (if x == d then [d, d] else [x]) + Halved(Doubled(s, d), c)
    ensures Doubled(Halved([x] + s, c), d) == (if x == d then [d, d] else [x]) + Doubled(Halved(s, c), d)
  {
    var more := Doubled(s, d);
    DoubledCons(x, s, d);
    HalvedCons(x, s, c);
    DoubledCons(x, Halved(s, c), d);
    if x == d {
      assert [d, d] + more == [d] + ([d] + more);
      HalvedCons(d, [d] + more, c);
      HalvedCons(d, more, c);
      assert [d] + ([d] + Halved(more, c)) == [d, d] + Halved(more, c);
    } else {
      assert s != [] ==> more[0] == s[0];
      HalvedCons(x, more, c);
    }
  }

  lemma PairIgnoresOther(s: string, c: char, d: char)
    requires c != d
    ensures Halved(Doubled([c, c] + s, d), c) == [c] + Halved(Doubled(s, d), c)
    ensures Doubled(Halved([c, c] + s, c), d) == [c] + Doubled(Halved(s, c), d)
  {
    assert [c, c] + s == [c] + ([c] + s);
    DoubledCons(c, [c] + s, d);
    DoubledCons(c, s, d);
    assert [c] + ([c] + Doubled(s, d)) == [c, c] + Doubled(s, d);
    HalvedPair(Doubled(s, d), c);
    HalvedPair(s, c);
    DoubledCons(c, Halved(s, c), d);
  }

  /** Collapsing the braces of a serialized comment gives the comment back, for every string. */
  lemma UnescapedSerialized(comment: string)
    ensures Unescaped(Serialized(comment)) == comment
  {
    HalvedIgnoresOther(Doubled(comment, '{'), '{', '}');
    HalvedDoubled(comment, '{');
    HalvedDoubled(comment, '}');
  }

  function Occurrences(s: string, c: char): nat {
    if s == [] then 0 else (if s[0] == c then 1 else 0) + Occurrences(s[1..], c)
  }

  lemma {:induction false} DoubledOccurrences(s: string, c: char, x: char)
    ensures Occurrences(Doubled(s, c), x) == if x == c then 2 * Occurrences(s, x) else Occurrences(s, x)
  {
    if s != [] {
      var rest := Doubled(s[1..], c);
      DoubledOccurrences(s[1..], c, x);
      assert Doubled(s, c) == (if s[0] == c then [c, c] else [s[0]]) + rest;
      OccurrencesCons(s[0], rest, x);
      OccurrencesCons(c, [c] + rest, x);
      OccurrencesCons(c, rest, x);
      assert [c, c] + rest == [c] + ([c] + rest);
    }
  }

  lemma OccurrencesCons(y: char, s: string, x: char)
    ensures Occurrences([y] + s, x) == (if y == x then 1 else 0) + Occurrences(s, x)
  {
    assert ([y] + s)[1..] == s;
  }

  /** A serialized comment has every brace twice, and everything else once. */
  lemma SerializedOccurrences(comment: string, x: char)
    ensures Occurrences(Serialized(comment), x) ==
            if x == '{' || x == '}' then 2 * Occurrences(comment, x) else Occurrences(comment, x)
  {
    DoubledOccurrences(comment, '{', x);
    DoubledOccurrences(Doubled(comment, '{'), '}', x);
  }
}
