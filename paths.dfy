/** The path text of test.py. `os.walk('source')` names each directory by
    joining components with `/`, and `compare_subdirs` derives the replica
    path with `str.replace('source', 'replica')` on that text (test.py:6).
    The replacement works on the whole text, not on the leading component,
    so the model shows when the two agree and where they part. */
module PathText {
  import opened Fs

  const Pattern: string := "source"
  const Substitute: string := "replica"

  /** Python's `s.replace(pat, rep)`: scans left to right and replaces each
      non-overlapping occurrence of `pat`. */
  function ReplaceAll(s: string, pat: string, rep: string): (r: string)
    requires pat != []
    ensures |rep| >= |pat| ==> |r| >= |s|
    ensures rep == pat ==> r == s
    decreases |s|
  {
    if |s| < |pat| then s
    else if s[..|pat|] == pat then rep + ReplaceAll(s[|pat|..], pat, rep)
    else [s[0]] + ReplaceAll(s[1..], pat, rep)
  }

  /** `pat` occurs in `s` starting at index `i`. */
  predicate OccursAt(pat: string, s: string, i: int)
  {
    0 <= i && i + |pat| <= |s| && s[i..i + |pat|] == pat
  }

  /** `pat` occurs somewhere in `s`. */
  ghost predicate Occurs(pat: string, s: string)
  {
    exists i :: OccursAt(pat, s, i)
  }

  /** `os.path.join` of the components, as `os.walk` builds its paths. */
  function Join(p: Path): (r: string)
    ensures p != [] ==> p[0] <= r
    decreases |p|
  {
    if p == [] then ""
    else if |p| == 1 then p[0]
    else p[0] + "/" + Join(p[1..])
  }

  /** The replacement applied to each component on its own. */
  function ReplacePath(p: Path): (r: Path)
    ensures |r| == |p|
    ensures forall i :: 0 <= i < |p| ==> r[i] == ReplaceAll(p[i], Pattern, Substitute)
  {
    seq(|p|, i requires 0 <= i < |p| => ReplaceAll(p[i], Pattern, Substitute))
  }

  /** No component holds a path separator, as in every name `os.listdir`
      returns. */
  predicate PlainComponents(p: Path)
  {
    forall i :: 0 <= i < |p| ==> '/' !in p[i]
  }

  /** Replacing in a text that a character outside the pattern splits in two
      is replacing in each half: no occurrence can straddle that character. */
  lemma {:induction false} ReplaceAcross(x: string, c: char, y: string, pat: string, rep: string)
    requires pat != [] && c !in pat
    ensures ReplaceAll(x + [c] + y, pat, rep) == ReplaceAll(x, pat, rep) + [c] + ReplaceAll(y, pat, rep)
    decreases |x|
  {
    if |x| >= |pat| && x[..|pat|] == pat {
      ReplaceAcross(x[|pat|..], c, y, pat, rep);
      ReplaceAcrossHit(x, c, y, pat, rep);
    } else if x == [] {
      ReplaceAcrossSeparator(c, y, pat, rep);
    } else {
      ReplaceAcross(x[1..], c, y, pat, rep);
      ReplaceAcrossMiss(x, c, y, pat, rep);
    }
  }

  /** The step of `ReplaceAcross` where `x` starts with the pattern. */
  lemma ReplaceAcrossHit(x: string, c: char, y: string, pat: string, rep: string)
    requires pat != [] && |x| >= |pat| && x[..|pat|] == pat
    requires ReplaceAll(x[|pat|..] + [c] + y, pat, rep) == ReplaceAll(x[|pat|..], pat, rep) + [c] + ReplaceAll(y, pat, rep)
    ensures ReplaceAll(x + [c] + y, pat, rep) == ReplaceAll(x, pat, rep) + [c] + ReplaceAll(y, pat, rep)
  {
    SplitFront(x, c, y, |pat|);
    Regroup(rep, ReplaceAll(x[|pat|..], pat, rep), c, ReplaceAll(y, pat, rep));
  }

  /** The step of `ReplaceAcross` where the text starts with `c`. */
  lemma ReplaceAcrossSeparator(c: char, y: string, pat: string, rep: string)
    requires pat != [] && c !in pat
    ensures ReplaceAll([] + [c] + y, pat, rep) == ReplaceAll([], pat, rep) + [c] + ReplaceAll(y, pat, rep)
  {
    var w := [c] + y;
    assert [] + [c] + y == w && w[1..] == y;
    assert |w| >= |pat| ==> w[..|pat|][0] == c;
  }

  /** The step of `ReplaceAcross` where `x` starts with a character that
      begins no occurrence. */
  lemma ReplaceAcrossMiss(x: string, c: char, y: string, pat: string, rep: string)
    requires pat != [] && c !in pat && x != []
    requires !(|x| >= |pat| && x[..|pat|] == pat)
    requires ReplaceAll(x[1..] + [c] + y, pat, rep) == ReplaceAll(x[1..], pat, rep) + [c] + ReplaceAll(y, pat, rep)
    ensures ReplaceAll(x + [c] + y, pat, rep) == ReplaceAll(x, pat, rep) + [c] + ReplaceAll(y, pat, rep)
  {
    var w := x + [c] + y;
    assert !(|w| >= |pat| && w[..|pat|] == pat) by {
      NoStraddle(x, c, y, pat);
      assert |x| >= |pat| ==> w[..|pat|] == x[..|pat|];
    }
    ReplaceStep(w, pat, rep);
    ReplaceStep(x, pat, rep);
    DropFirst(x, c, y);
    Regroup([x[0]], ReplaceAll(x[1..], pat, rep), c, ReplaceAll(y, pat, rep));
  }

  lemma DropFirst(x: string, c: char, y: string)
    requires x != []
    ensures (x + [c] + y)[0] == x[0] && (x + [c] + y)[1..] == x[1..] + [c] + y
  {
  }

  lemma SplitFront(x: string, c: char, y: string, k: nat)
    requires k <= |x|
    ensures (x + [c] + y)[..k] == x[..k] && (x + [c] + y)[k..] == x[k..] + [c] + y
  {
  }

  lemma Regroup(a: string, u: string, c: char, v: string)
    ensures a + (u + [c] + v) == (a + u) + [c] + v
  {
  }

  /** Replacing in a text that does not start with the pattern keeps its
      first character. */
  lemma ReplaceStep(s: string, pat: string, rep: string)
    requires pat != [] && s != [] && !(|s| >= |pat| && s[..|pat|] == pat)
    ensures ReplaceAll(s, pat, rep) == [s[0]] + ReplaceAll(s[1..], pat, rep)
  {
    if |s| < |pat| {
      assert s == [s[0]] + s[1..];
    }
  }

  /** An occurrence of `pat` at the start cannot reach over `c`. */
  lemma NoStraddle(x: string, c: char, y: string, pat: string)
    requires c !in pat
    ensures |x| < |pat| <= |x + [c] + y| ==> (x + [c] + y)[..|pat|] != pat
  {
    var w := x + [c] + y;
    if |x| < |pat| <= |w| {
      assert w[..|pat|][|x|] == c;
    }
  }

  /** Replacing in the joined text is joining the replaced components, so
      the model may map paths component by component. */
  lemma {:induction false} ReplaceJoin(p: Path)
    requires PlainComponents(p)
    ensures ReplaceAll(Join(p), Pattern, Substitute) == Join(ReplacePath(p))
    decreases |p|
  {
    if |p| > 1 {
      ReplaceJoin(p[1..]);
      assert '/' !in Pattern;
      ReplaceAcross(p[0], '/', Join(p[1..]), Pattern, Substitute);
      assert ReplacePath(p)[1..] == ReplacePath(p[1..]);
      assert p[0] + "/" + Join(p[1..]) == p[0] + ['/'] + Join(p[1..]);
    }
  }

  /** A component is left alone exactly when the pattern does not occur in
      it (the substitute is longer, so each replacement shows). */
  lemma ReplaceUnchanged(s: string)
    ensures ReplaceAll(s, Pattern, Substitute) == s <==> !Occurs(Pattern, s)
  {
    ReplaceLength(s, Pattern, Substitute);
  }

  lemma {:induction false} ReplaceLength(s: string, pat: string, rep: string)
    requires pat != [] && |rep| > |pat|
    ensures |ReplaceAll(s, pat, rep)| >= |s|
    ensures Occurs(pat, s) ==> |ReplaceAll(s, pat, rep)| > |s|
    ensures !Occurs(pat, s) ==> ReplaceAll(s, pat, rep) == s
    decreases |s|
  {
    if |s| < |pat| {
      assert !Occurs(pat, s);
    } else if s[..|pat|] == pat {
      ReplaceLength(s[|pat|..], pat, rep);
      assert OccursAt(pat, s, 0);
    } else {
      ReplaceLength(s[1..], pat, rep);
      OccursPastFirst(pat, s);
      ReplaceStep(s, pat, rep);
      assert s == [s[0]] + s[1..];
    }
  }

  /** The pattern occurs in a text that does not start with it exactly when
      it occurs past the first character. */
  lemma OccursPastFirst(pat: string, s: string)
    requires pat != [] && |s| >= |pat| && s[..|pat|] != pat
    ensures Occurs(pat, s) <==> Occurs(pat, s[1..])
  {
    if Occurs(pat, s) {
      var i :| OccursAt(pat, s, i);
      assert s[0..|pat|] == s[..|pat|];
      assert i != 0;
      assert s[1..][i - 1..i - 1 + |pat|] == s[i..i + |pat|];
      assert OccursAt(pat, s[1..], i - 1);
    }
    if Occurs(pat, s[1..]) {
      var i :| OccursAt(pat, s[1..], i);
      assert s[i + 1..i + 1 + |pat|] == s[1..][i..i + |pat|];
      assert OccursAt(pat, s, i + 1);
    }
  }


  /** The replica path of a source path: the first component swapped. */
  function Swap(p: Path): (r: Path)
    requires Source <= p
    ensures Replica <= r && |r| == |p|
    ensures forall i :: 1 <= i < |p| ==> r[i] == p[i]
  {
    Replica + p[1..]
  }

  /** The pattern occurs in no component after the first. */
  ghost predicate PrefixOnlyPath(p: Path)
  {
    forall i :: 1 <= i < |p| ==> !Occurs(Pattern, p[i])
  }

  /** Where the pattern occurs only as the leading `source`, replacing all
      occurrences is swapping the first component. */
  lemma ReplaceSwapsRoot(p: Path)
    requires Source <= p && PrefixOnlyPath(p)
    ensures ReplacePath(p) == Swap(p)
  {
    ReplaceLeading();
    forall i | 1 <= i < |p| ensures ReplacePath(p)[i] == p[i] {
      ReplaceUnchanged(p[i]);
    }
  }

  lemma ReplaceLeading()
    ensures ReplaceAll(Pattern, Pattern, Substitute) == Substitute
  {
    assert Pattern[..|Pattern|] == Pattern;
    assert Pattern[|Pattern|..] == [];
  }

  /** Every path below `source` is sent below `replica`, whatever else the
      replacement does. */
  lemma ReplaceStaysInReplica(p: Path)
    requires Source <= p
    ensures Replica <= ReplacePath(p)
  {
    ReplaceLeading();
  }

  /** One replacement step past a character that cannot start the
      pattern. */
  lemma ReplaceSkip(c: char, u: string)
    requires c != Pattern[0]
    ensures ReplaceAll([c] + u, Pattern, Substitute) == [c] + ReplaceAll(u, Pattern, Substitute)
  {
    var w := [c] + u;
    assert w[1..] == u;
    assert |w| >= |Pattern| ==> w[..|Pattern|][0] != Pattern[0];
  }

  /** One replacement step over an occurrence of the pattern. */
  lemma ReplaceHit(u: string)
    ensures ReplaceAll(Pattern + u, Pattern, Substitute) == Substitute + ReplaceAll(u, Pattern, Substitute)
  {
    var w := Pattern + u;
    assert w[..|Pattern|] == Pattern && w[|Pattern|..] == u;
  }

  /** A directory whose name contains `source` is mirrored under a changed
      name: `source/opensource` goes to `replica/openreplica`. */
  lemma ReplaceInsideName()
    ensures ReplacePath(["source", "opensource"]) == ["replica", "openreplica"]
  {
    ReplaceLeading();
    ReplaceOpenSource();
    ReplacePair(["source", "opensource"]);
  }

  lemma ReplaceOpenSource()
    ensures ReplaceAll("opensource", Pattern, Substitute) == "openreplica"
  {
    ReplaceLeading();
    ReplaceSkip('n', Pattern);
    ReplaceSkip('e', ['n'] + Pattern);
    ReplaceSkip('p', ['e'] + (['n'] + Pattern));
    ReplaceSkip('o', ['p'] + (['e'] + (['n'] + Pattern)));
    SpellOpen();
  }

  lemma SpellOpen()
    ensures "opensource" == ['o'] + (['p'] + (['e'] + (['n'] + Pattern)))
    ensures "openreplica" == ['o'] + (['p'] + (['e'] + (['n'] + Substitute)))
  {
  }

  /** The replacement of a two-component path. */
  lemma ReplacePair(p: Path)
    requires |p| == 2
    ensures ReplacePath(p) == [ReplaceAll(p[0], Pattern, Substitute), ReplaceAll(p[1], Pattern, Substitute)]
  {
  }

  /** Two different source directories can share one replica directory:
      `source/a_source` and `source/a_replica` both go to
      `replica/a_replica`. */
  lemma ReplaceNotInjective()
    ensures ["source", "a_source"] != ["source", "a_replica"]
    ensures ReplacePath(["source", "a_source"]) == ReplacePath(["source", "a_replica"])
  {
    ReplaceLeading();
    ReplaceASource();
    ReplaceAReplica();
    ReplacePair(["source", "a_source"]);
    ReplacePair(["source", "a_replica"]);
    assert "a_source"[2] != "a_replica"[2];
    assert ["source", "a_source"][1] != ["source", "a_replica"][1];
  }

  lemma ReplaceASource()
    ensures ReplaceAll("a_source", Pattern, Substitute) == "a_replica"
  {
    ReplaceLeading();
    ReplaceSkip('_', Pattern);
    ReplaceSkip('a', ['_'] + Pattern);
    SpellA();
  }

  lemma SpellA()
    ensures "a_source" == ['a'] + (['_'] + Pattern)
    ensures "a_replica" == ['a'] + (['_'] + Substitute)
  {
  }

  lemma ReplaceAReplica()
    ensures ReplaceAll("a_replica", Pattern, Substitute) == "a_replica"
  {
    var u := "a_replica";
    assert !Occurs(Pattern, u) by {
      forall i ensures !OccursAt(Pattern, u, i) {
        if 0 <= i && i + 6 <= |u| {
          assert u[i..i + 6][0] == u[i];
        }
      }
    }
    ReplaceUnchanged(u);
  }

}
