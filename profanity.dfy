/** `removeProfanity` of Pointers/2-Syntax.go: three whole-string
    replacements that mask "dang", "shoot" and "heck", stored back through a
    pointer to the message. */
module Profanity {

  /** `strings.ReplaceAll(s, pat, rep)` for a non-empty `pat`: scanning left
      to right, each occurrence not overlapping an earlier replaced one is
      replaced. */
  function ReplaceAll(s: string, pat: string, rep: string): (r: string)
    requires |pat| > 0
    ensures |rep| == |pat| ==> |r| == |s|
    decreases |s|
  {
    if |s| < |pat| then s
    else if s[..|pat|] == pat then rep + ReplaceAll(s[|pat|..], pat, rep)
    else [s[0]] + ReplaceAll(s[1..], pat, rep)
  }

  /** `w` occurs in `s` starting at index `i`. */
  predicate OccursAt(s: string, w: string, i: int)
  {
    0 <= i && i + |w| <= |s| && s[i..i + |w|] == w
  }

  ghost predicate Contains(s: string, w: string)
  {
    exists i :: OccursAt(s, w, i)
  }

  /** Every character is the mask character. */
  predicate Masked(s: string)
  {
    forall i :: 0 <= i < |s| ==> s[i] == '*'
  }

  /** No character is the mask character. */
  predicate Unmasked(s: string)
  {
    forall i :: 0 <= i < |s| ==> s[i] != '*'
  }

  /** An occurrence in a suffix is an occurrence in the whole string. */
  lemma OccursInSuffix(s: string, w: string, k: nat, i: int)
    requires k <= |s| && OccursAt(s[k..], w, i)
    ensures OccursAt(s, w, i + k)
  {
    assert s[k..][i..i + |w|] == s[i + k..i + k + |w|];
  }

  /** A string without `pat` is left as it is. */
  lemma {:induction false} ReplaceAllAbsent(s: string, pat: string, rep: string)
    requires |pat| > 0 && !Contains(s, pat)
    ensures ReplaceAll(s, pat, rep) == s
    decreases |s|
  {
    if |s| >= |pat| {
      assert !OccursAt(s, pat, 0);
      forall i ensures !OccursAt(s[1..], pat, i) {
        if OccursAt(s[1..], pat, i) {
          OccursInSuffix(s, pat, 1, i);
          assert false;
        }
      }
      ReplaceAllAbsent(s[1..], pat, rep);
    }
  }

  /** An occurrence past a prefix is an occurrence in what follows it. */
  lemma OccursAfterPrefix(p: string, t: string, w: string, i: int)
    requires i >= |p|
    ensures OccursAt(p + t, w, i) <==> OccursAt(t, w, i - |p|)
  {
    if i + |w| <= |p + t| {
      assert (p + t)[i..i + |w|] == t[i - |p|..i - |p| + |w|];
    }
  }

  /** A word without masks cannot start inside a mask. */
  lemma NoOccurrenceInMask(p: string, t: string, w: string, i: int)
    requires Masked(p) && |w| > 0 && Unmasked(w) && 0 <= i < |p|
    ensures !OccursAt(p + t, w, i)
  {
    if i + |w| <= |p + t| {
      assert (p + t)[i..i + |w|][0] == p[i];
    }
  }

  /** When a masking replacement leaves the first `k` characters of the
      result free of masks, no replacement happened there: they are the
      first `k` characters of the input. */
  lemma {:induction false} UnmaskedPrefixKept(t: string, pat: string, rep: string, k: nat)
    requires |pat| > 0 && |rep| > 0 && Masked(rep)
    requires k <= |ReplaceAll(t, pat, rep)| && Unmasked(ReplaceAll(t, pat, rep)[..k])
    ensures k <= |t| && ReplaceAll(t, pat, rep)[..k] == t[..k]
    decreases |t|
  {
    var r := ReplaceAll(t, pat, rep);
    if |t| >= |pat| && k > 0 {
      assert r[..k][0] == r[0] && rep[0] == '*';
      var r' := ReplaceAll(t[1..], pat, rep);
      assert r == [t[0]] + r';
      assert r'[..k - 1] == r[..k][1..];
      UnmaskedPrefixKept(t[1..], pat, rep, k - 1);
      assert r[..k] == [t[0]] + r'[..k - 1];
    }
  }

  /** When the scan does not match at the front, an occurrence of a word
      without masks at the front of the result was already at the front of
      the input. */
  lemma FrontOccurrenceKept(s: string, pat: string, rep: string, w: string)
    requires |pat| > 0 && |rep| > 0 && Masked(rep)
    requires |w| > 0 && Unmasked(w)
    requires |s| >= |pat| && s[..|pat|] != pat
    ensures OccursAt(ReplaceAll(s, pat, rep), w, 0) ==> OccursAt(s, w, 0)
  {
    var r, r' := ReplaceAll(s, pat, rep), ReplaceAll(s[1..], pat, rep);
    assert r == [s[0]] + r';
    if OccursAt(r, w, 0) {
      var w' := w[1..];
      assert r'[..|w'|] == w' by {
        assert r[..|w|] == [s[0]] + r'[..|w'|];
      }
      assert Unmasked(w') by {
        forall i | 0 <= i < |w'| ensures w'[i] != '*' {
          assert w'[i] == w[i + 1];
        }
      }
      UnmaskedPrefixKept(s[1..], pat, rep, |w'|);
      assert s[..|w|] == [s[0]] + s[1..][..|w'|];
    }
  }

  /** A masking replacement leaves no occurrence of the replaced word. */
  lemma {:induction false} ReplaceAllRemoves(s: string, pat: string, rep: string)
    requires |pat| > 0 && Unmasked(pat) && |rep| > 0 && Masked(rep)
    ensures !Contains(ReplaceAll(s, pat, rep), pat)
    decreases |s|
  {
    var r := ReplaceAll(s, pat, rep);
    if |s| < |pat| {
      forall i ensures !OccursAt(r, pat, i) { }
    } else if s[..|pat|] == pat {
      var r' := ReplaceAll(s[|pat|..], pat, rep);
      assert r == rep + r';
      ReplaceAllRemoves(s[|pat|..], pat, rep);
      forall i ensures !OccursAt(r, pat, i) {
        if 0 <= i < |rep| {
          NoOccurrenceInMask(rep, r', pat, i);
        } else if |rep| <= i {
          OccursAfterPrefix(rep, r', pat, i);
        }
      }
    } else {
      var r' := ReplaceAll(s[1..], pat, rep);
      assert r == [s[0]] + r';
      ReplaceAllRemoves(s[1..], pat, rep);
      FrontOccurrenceKept(s, pat, rep, pat);
      forall i ensures !OccursAt(r, pat, i) {
        if i >= 1 {
          OccursAfterPrefix([s[0]], r', pat, i);
        }
      }
    }
  }

  /** A masking replacement never creates an occurrence of a word without
      masks in it. */
  lemma {:induction false} ReplaceAllKeepsAbsent(s: string, pat: string, rep: string, w: string)
    requires |pat| > 0 && |rep| > 0 && Masked(rep)
    requires |w| > 0 && Unmasked(w) && !Contains(s, w)
    ensures !Contains(ReplaceAll(s, pat, rep), w)
    decreases |s|
  {
    var r := ReplaceAll(s, pat, rep);
    if |s| < |pat| {
      assert r == s;
    } else {
      var matched := s[..|pat|] == pat;
      var k := if matched then |pat| else 1;
      forall i ensures !OccursAt(s[k..], w, i) {
        if i >= 0 {
          OccursAfterPrefix(s[..k], s[k..], w, i + k);
          assert s[..k] + s[k..] == s;
        }
      }
      ReplaceAllKeepsAbsent(s[k..], pat, rep, w);
      var r' := ReplaceAll(s[k..], pat, rep);
      if matched {
        assert r == rep + r';
        forall i ensures !OccursAt(r, w, i) {
          if 0 <= i < |rep| {
            NoOccurrenceInMask(rep, r', w, i);
          } else if |rep| <= i {
            OccursAfterPrefix(rep, r', w, i);
          }
        }
      } else {
        assert r == [s[0]] + r';
        FrontOccurrenceKept(s, pat, rep, w);
        forall i ensures !OccursAt(r, w, i) {
          if i >= 1 {
            OccursAfterPrefix([s[0]], r', w, i);
          }
        }
      }
    }
  }

  /** A replacement by a mask of the same length changes characters only into
      the mask character. */
  lemma {:induction false} ReplaceAllOnlyMasks(s: string, pat: string, rep: string)
    requires |pat| > 0 && |rep| == |pat| && Masked(rep)
    ensures forall i :: 0 <= i < |s| ==>
              ReplaceAll(s, pat, rep)[i] == s[i] || ReplaceAll(s, pat, rep)[i] == '*'
    decreases |s|
  {
    if |s| < |pat| {
    } else if s[..|pat|] == pat {
      ReplaceAllOnlyMasks(s[|pat|..], pat, rep);
    } else {
      ReplaceAllOnlyMasks(s[1..], pat, rep);
    }
  }

  /** No occurrence of `w` in `s` covers index `i`. */
  ghost predicate Uncovered(s: string, w: string, i: int)
  {
    forall j :: j <= i < j + |w| ==> !OccursAt(s, w, j)
  }

  /** A same-length replacement changes no character that no occurrence of
      the word covers. */
  lemma {:induction false} ReplaceAllKeepsUncovered(s: string, pat: string, rep: string)
    requires |pat| > 0 && |rep| == |pat|
    ensures forall i :: 0 <= i < |s| && Uncovered(s, pat, i) ==> ReplaceAll(s, pat, rep)[i] == s[i]
    decreases |s|
  {
    var r := ReplaceAll(s, pat, rep);
    if |s| >= |pat| {
      var matched := s[..|pat|] == pat;
      var k := if matched then |pat| else 1;
      var r' := ReplaceAll(s[k..], pat, rep);
      assert r == (if matched then rep else [s[0]]) + r';
      assert matched ==> OccursAt(s, pat, 0);
      ReplaceAllKeepsUncovered(s[k..], pat, rep);
      assert s[..k] + s[k..] == s;
      forall i | k <= i < |s| && Uncovered(s, pat, i) ensures r[i] == s[i] {
        assert Uncovered(s[k..], pat, i - k) by {
          forall j | j <= i - k < j + |pat| ensures !OccursAt(s[k..], pat, j) {
            if j >= 0 {
              OccursAfterPrefix(s[..k], s[k..], pat, j + k);
            }
          }
        }
        assert r[i] == r'[i - k] && s[i] == s[k..][i - k];
      }
    }
  }

  /** When `r` differs from `s` only by masks, an occurrence in `r` of a word
      without masks was already in `s`. */
  lemma OccursBack(s: string, r: string, w: string, j: int)
    requires |r| == |s| && Unmasked(w)
    requires forall i :: 0 <= i < |s| ==> r[i] == s[i] || r[i] == '*'
    ensures OccursAt(r, w, j) ==> OccursAt(s, w, j)
  {
    if OccursAt(r, w, j) {
      forall i | 0 <= i < |w| ensures s[j + i] == w[i] {
        assert r[j + i] == w[i];
      }
      assert s[j..j + |w|] == w;
    }
  }

  /** Masking cannot make a word without masks cover an index it did not. */
  lemma UncoveredBack(s: string, r: string, w: string, i: int)
    requires |r| == |s| && Unmasked(w) && Uncovered(s, w, i)
    requires forall i :: 0 <= i < |s| ==> r[i] == s[i] || r[i] == '*'
    ensures Uncovered(r, w, i)
  {
    forall j ensures j <= i < j + |w| ==> !OccursAt(r, w, j) {
      OccursBack(s, r, w, j);
    }
  }

  /** The first character of `pat` does not recur in it, so two occurrences
      of `pat` never overlap. */
  predicate FirstUnique(pat: string)
  {
    forall d | 0 < d < |pat| :: pat[d] != pat[0]
  }

  /** Under FirstUnique, no occurrence of `pat` starts inside one at 0. */
  lemma NoOccurrenceInside(s: string, pat: string, j: int)
    requires |pat| > 0 && FirstUnique(pat) && OccursAt(s, pat, 0) && 0 < j < |pat|
    ensures !OccursAt(s, pat, j)
  {
    if j + |pat| <= |s| {
      assert s[j] == s[..|pat|][j] == pat[j];
      assert s[j..j + |pat|][0] == s[j];
    }
  }

  /** A masking replacement of a word whose occurrences cannot overlap turns
      every character of every occurrence into '*'. */
  lemma {:induction false} ReplaceAllMasksCovered(s: string, pat: string, rep: string)
    requires |pat| > 0 && |rep| == |pat| && Masked(rep) && FirstUnique(pat)
    ensures forall j, i | OccursAt(s, pat, j) && j <= i < j + |pat| :: ReplaceAll(s, pat, rep)[i] == '*'
    decreases |s|
  {
    var r := ReplaceAll(s, pat, rep);
    if |s| >= |pat| {
      var matched := s[..|pat|] == pat;
      var k := if matched then |pat| else 1;
      var r' := ReplaceAll(s[k..], pat, rep);
      assert r == (if matched then rep else [s[0]]) + r';
      assert OccursAt(s, pat, 0) <==> matched;
      ReplaceAllMasksCovered(s[k..], pat, rep);
      assert s[..k] + s[k..] == s;
      forall j, i | OccursAt(s, pat, j) && j <= i < j + |pat| ensures r[i] == '*' {
        if matched && i < |pat| {
          assert r[i] == rep[i];
        } else {
          if matched && j < |pat| {
            NoOccurrenceInside(s, pat, j);
          }
          OccursAfterPrefix(s[..k], s[k..], pat, j);
          assert r[i] == r'[i - k];
        }
      }
    }
  }

  /** The three rewrites of removeProfanity, in their order. */
  function Censor(s: string): (r: string)
    ensures |r| == |s|
  {
    var s1 := ReplaceAll(s, "dang", "****");
    var s2 := ReplaceAll(s1, "shoot", "*****");
    ReplaceAll(s2, "heck", "****")
  }

  /** The censored message contains none of the three words. */
  lemma CensorRemovesAll(s: string)
    ensures !Contains(Censor(s), "dang")
    ensures !Contains(Censor(s), "shoot")
    ensures !Contains(Censor(s), "heck")
  {
    var s1 := ReplaceAll(s, "dang", "****");
    var s2 := ReplaceAll(s1, "shoot", "*****");
    ReplaceAllRemoves(s, "dang", "****");
    ReplaceAllKeepsAbsent(s1, "shoot", "*****", "dang");
    ReplaceAllRemoves(s1, "shoot", "*****");
    ReplaceAllKeepsAbsent(s2, "heck", "****", "dang");
    ReplaceAllKeepsAbsent(s2, "heck", "****", "shoot");
    ReplaceAllRemoves(s2, "heck", "****");
  }

  /** A message with none of the three words is left as it is. */
  lemma CensorClean(s: string)
    requires !Contains(s, "dang") && !Contains(s, "shoot") && !Contains(s, "heck")
    ensures Censor(s) == s
  {
    ReplaceAllAbsent(s, "dang", "****");
    ReplaceAllAbsent(s, "shoot", "*****");
    ReplaceAllAbsent(s, "heck", "****");
  }

  /** Censoring only turns characters into '*'. */
  lemma CensorOnlyMasks(s: string)
    ensures forall i :: 0 <= i < |s| ==> Censor(s)[i] == s[i] || Censor(s)[i] == '*'
  {
    var s1 := ReplaceAll(s, "dang", "****");
    var s2 := ReplaceAll(s1, "shoot", "*****");
    ReplaceAllOnlyMasks(s, "dang", "****");
    ReplaceAllOnlyMasks(s1, "shoot", "*****");
    ReplaceAllOnlyMasks(s2, "heck", "****");
  }

  /** Censoring changes no character that no occurrence of the three words
      covers: together with CensorOnlyMasks, only the words are masked. */
  lemma CensorKeepsUncovered(s: string)
    ensures forall i | 0 <= i < |s| && Uncovered(s, "dang", i) && Uncovered(s, "shoot", i)
                         && Uncovered(s, "heck", i) :: Censor(s)[i] == s[i]
  {
    var s1 := ReplaceAll(s, "dang", "****");
    var s2 := ReplaceAll(s1, "shoot", "*****");
    var s3 := ReplaceAll(s2, "heck", "****");
    ReplaceAllOnlyMasks(s, "dang", "****");
    ReplaceAllOnlyMasks(s1, "shoot", "*****");
    ReplaceAllKeepsUncovered(s, "dang", "****");
    ReplaceAllKeepsUncovered(s1, "shoot", "*****");
    ReplaceAllKeepsUncovered(s2, "heck", "****");
    forall i | 0 <= i < |s| && Uncovered(s, "dang", i) && Uncovered(s, "shoot", i)
                 && Uncovered(s, "heck", i)
      ensures s3[i] == s[i]
    {
      UncoveredBack(s, s1, "shoot", i);
      UncoveredBack(s, s1, "heck", i);
      UncoveredBack(s1, s2, "heck", i);
    }
  }

  /** Where occurrences of `u` at `a` and of `v` at `b` share an index, the
      two words agree on the character there. */
  lemma SharedChar(t: string, u: string, v: string, a: int, b: int, p: int)
    ensures OccursAt(t, u, a) && OccursAt(t, v, b) && a <= p < a + |u| && b <= p < b + |v| ==>
              u[p - a] == v[p - b]
  {
    if OccursAt(t, u, a) && OccursAt(t, v, b) && a <= p < a + |u| && b <= p < b + |v| {
      assert t[a..a + |u|][p - a] == t[p] == t[b..b + |v|][p - b];
    }
  }

  /** An occurrence of "dang" shares no index with one of "shoot" or "heck":
      they have no letter in common. */
  lemma DangApart(t: string, a: int, b: int, p: int)
    ensures !(OccursAt(t, "dang", a) && OccursAt(t, "shoot", b) && a <= p < a + 4 && b <= p < b + 5)
    ensures !(OccursAt(t, "dang", a) && OccursAt(t, "heck", b) && a <= p < a + 4 && b <= p < b + 4)
  {
    SharedChar(t, "dang", "shoot", a, b, p);
    SharedChar(t, "dang", "heck", a, b, p);
    if a <= p < a + 4 && b <= p < b + 5 {
      assert p - a == 0 || p - a == 1 || p - a == 2 || p - a == 3;
      assert p - b == 0 || p - b == 1 || p - b == 2 || p - b == 3 || p - b == 4;
    }
  }

  /** An occurrence of "shoot" shares no index with one of "heck": their only
      common letter is 'h', and the letters after it differ. */
  lemma ShootHeckApart(t: string, a: int, b: int, p: int)
    ensures !(OccursAt(t, "shoot", a) && OccursAt(t, "heck", b) && a <= p < a + 5 && b <= p < b + 4)
  {
    SharedChar(t, "shoot", "heck", a, b, p);
    SharedChar(t, "shoot", "heck", a, b, a + 2);
    if a <= p < a + 5 && b <= p < b + 4 {
      assert p - a == 0 || p - a == 1 || p - a == 2 || p - a == 3 || p - a == 4;
      assert p - b == 0 || p - b == 1 || p - b == 2 || p - b == 3;
    }
  }

  /** None of the three words repeats its first letter. */
  lemma WordsFirstUnique()
    ensures FirstUnique("dang") && FirstUnique("shoot") && FirstUnique("heck")
  {
    forall d | 0 < d < 5 ensures "shoot"[d] != 's' {
      assert d == 1 || d == 2 || d == 3 || d == 4;
    }
    forall d | 0 < d < 4 ensures "dang"[d] != 'd' && "heck"[d] != 'h' {
      assert d == 1 || d == 2 || d == 3;
    }
  }

  /** An occurrence in `s` whose every index no occurrence of `u` covers
      survives a same-length replacement of `u`. */
  lemma OccurrenceSurvives(s: string, u: string, rep: string, w: string, j: int)
    requires |u| > 0 && |rep| == |u| && OccursAt(s, w, j)
    requires forall p | j <= p < j + |w| :: Uncovered(s, u, p)
    ensures OccursAt(ReplaceAll(s, u, rep), w, j)
  {
    var r := ReplaceAll(s, u, rep);
    ReplaceAllKeepsUncovered(s, u, rep);
    assert r[j..j + |w|] == s[j..j + |w|];
  }

  /** Censoring masks every character of every occurrence of the three words. */
  lemma CensorMasksCovered(s: string)
    ensures forall j, i | OccursAt(s, "dang", j) && j <= i < j + 4 :: Censor(s)[i] == '*'
    ensures forall j, i | OccursAt(s, "shoot", j) && j <= i < j + 5 :: Censor(s)[i] == '*'
    ensures forall j, i | OccursAt(s, "heck", j) && j <= i < j + 4 :: Censor(s)[i] == '*'
  {
    var s1 := ReplaceAll(s, "dang", "****");
    var s2 := ReplaceAll(s1, "shoot", "*****");
    var s3 := ReplaceAll(s2, "heck", "****");
    WordsFirstUnique();
    ReplaceAllOnlyMasks(s1, "shoot", "*****");
    ReplaceAllOnlyMasks(s2, "heck", "****");
    ReplaceAllMasksCovered(s, "dang", "****");
    ReplaceAllMasksCovered(s1, "shoot", "*****");
    ReplaceAllMasksCovered(s2, "heck", "****");
    forall j | OccursAt(s, "shoot", j) ensures OccursAt(s1, "shoot", j) {
      forall p | j <= p < j + 5 ensures Uncovered(s, "dang", p) {
        forall b ensures b <= p < b + 4 ==> !OccursAt(s, "dang", b) {
          DangApart(s, b, j, p);
        }
      }
      OccurrenceSurvives(s, "dang", "****", "shoot", j);
    }
    forall j | OccursAt(s, "heck", j) ensures OccursAt(s2, "heck", j) {
      forall p | j <= p < j + 4 ensures Uncovered(s, "dang", p) {
        forall b ensures b <= p < b + 4 ==> !OccursAt(s, "dang", b) {
          DangApart(s, b, j, p);
        }
      }
      OccurrenceSurvives(s, "dang", "****", "heck", j);
      forall p | j <= p < j + 4 ensures Uncovered(s1, "shoot", p) {
        forall b ensures b <= p < b + 5 ==> !OccursAt(s1, "shoot", b) {
          ShootHeckApart(s1, b, j, p);
        }
      }
      OccurrenceSurvives(s1, "shoot", "*****", "heck", j);
    }
  }

  /** What removeProfanity computes, character by character: '*' where one of
      the three words occurs, the original character everywhere else. */
  lemma CensorExactly(s: string)
    ensures forall i | 0 <= i < |s| ::
              Censor(s)[i] == if Uncovered(s, "dang", i) && Uncovered(s, "shoot", i)
                                 && Uncovered(s, "heck", i) then s[i] else '*'
  {
    CensorKeepsUncovered(s);
    CensorMasksCovered(s);
  }

  /** The `*string` the function receives: a cell holding a message. */
  class StringRef {
    var value: string

    constructor (value: string)
      ensures this.value == value
    {
      this.value := value;
    }
  }

  /** removeProfanity: reads the message through the pointer, rewrites it, and
      writes the result back; nothing but the pointed-to message changes. */
  method RemoveProfanity(message: StringRef)
    modifies message
    ensures message.value == Censor(old(message.value))
  {
    var messageVal := message.value;
    messageVal := ReplaceAll(messageVal, "dang", "****");
    messageVal := ReplaceAll(messageVal, "shoot", "*****");
    messageVal := ReplaceAll(messageVal, "heck", "****");
    message.value := messageVal;
  }
}
