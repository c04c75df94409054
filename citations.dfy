/** The citation entry `parseCitations` computes for one README: the working
    `Set` of captured numbers, kept as its elements in insertion order (the
    order `Array.from` yields), grown by each regex in turn and pruned of the
    parent's own id after each one. */
module Citations {
  import opened Patterns

  /** No element occurs twice, as in any array made from a `Set`. */
  ghost predicate NoDuplicates<T>(xs: seq<T>) {
    forall i, j :: 0 <= i < j < |xs| ==> xs[i] != xs[j]
  }

  /** `Set.prototype.add`: a new element goes last, a present one stays put. */
  function SetAdd<T(==,!new)>(xs: seq<T>, x: T): (r: seq<T>)
    ensures forall y :: y in r <==> y in xs || y == x
    ensures NoDuplicates(xs) ==> NoDuplicates(r)
    ensures |xs| <= |r| && r[..|xs|] == xs
  {
    if x in xs then xs else xs + [x]
  }

  /** `Set.prototype.delete`: removes `x` and keeps the order of the rest. */
  function SetDelete<T(==,!new)>(xs: seq<T>, x: T): seq<T>
    decreases |xs|
  {
    if xs == [] then []
    else (if xs[0] == x then [] else [xs[0]]) + SetDelete(xs[1..], x)
  }

  /** Adds the elements of `ys` one after another, as the `for...of` loop over
      the matches of one regex does. */
  function AddAll<T(==,!new)>(xs: seq<T>, ys: seq<T>): seq<T>
    decreases |ys|
  {
    if ys == [] then xs else AddAll(SetAdd(xs, ys[0]), ys[1..])
  }

  lemma AddAllCons<T(!new)>(xs: seq<T>, y: T, ys: seq<T>)
    ensures AddAll(xs, [y] + ys) == AddAll(SetAdd(xs, y), ys)
  {
    assert ([y] + ys)[0] == y && ([y] + ys)[1..] == ys;
  }

  /** `Array.from(new Set(ys))`: the distinct elements of `ys` in order of
      first appearance. */
  function Dedup<T(==,!new)>(ys: seq<T>): seq<T> {
    AddAll([], ys)
  }

  lemma {:induction false} SetDeleteMembers<T(!new)>(xs: seq<T>, x: T)
    ensures forall y :: y in SetDelete(xs, x) <==> y in xs && y != x
    decreases |xs|
  {
    if xs != [] {
      SetDeleteMembers(xs[1..], x);
      assert forall y :: y in xs <==> y == xs[0] || y in xs[1..];
    }
  }

  lemma {:induction false} SetDeleteNoDuplicates<T(!new)>(xs: seq<T>, x: T)
    requires NoDuplicates(xs)
    ensures NoDuplicates(SetDelete(xs, x))
    decreases |xs|
  {
    if xs != [] {
      var tail := xs[1..];
      assert NoDuplicates(tail) by {
        forall i, j | 0 <= i < j < |tail| ensures tail[i] != tail[j] {
          assert tail[i] == xs[i + 1] && tail[j] == xs[j + 1];
        }
      }
      SetDeleteNoDuplicates(tail, x);
      SetDeleteMembers(tail, x);
      assert xs[0] !in tail by {
        forall j | 0 <= j < |tail| ensures tail[j] != xs[0] {
          assert tail[j] == xs[j + 1];
        }
      }
      var head: seq<T> := if xs[0] == x then [] else [xs[0]];
      var rest := SetDelete(tail, x);
      var r := head + rest;
      forall i, j | 0 <= i < j < |r| ensures r[i] != r[j] {
        if i < |head| {
          assert r[i] == xs[0] && r[j] == rest[j - |head|];
        } else {
          assert r[i] == rest[i - |head|] && r[j] == rest[j - |head|];
        }
      }
    }
  }

  lemma {:induction false} SetDeleteAbsent<T(!new)>(xs: seq<T>, x: T)
    requires x !in xs
    ensures SetDelete(xs, x) == xs
    decreases |xs|
  {
    if xs != [] {
      SetDeleteAbsent(xs[1..], x);
      assert xs == [xs[0]] + xs[1..];
    }
  }

  /** Deleting twice is deleting once. */
  lemma SetDeleteTwice<T(!new)>(xs: seq<T>, x: T)
    ensures SetDelete(SetDelete(xs, x), x) == SetDelete(xs, x)
  {
    SetDeleteMembers(xs, x);
    SetDeleteAbsent(SetDelete(xs, x), x);
  }

  lemma {:induction false} AddAllMembers<T(!new)>(xs: seq<T>, ys: seq<T>)
    ensures forall y :: y in AddAll(xs, ys) <==> y in xs || y in ys
    decreases |ys|
  {
    if ys != [] {
      AddAllMembers(SetAdd(xs, ys[0]), ys[1..]);
      assert forall y :: y in ys <==> y == ys[0] || y in ys[1..];
    }
  }

  lemma {:induction false} AddAllNoDuplicates<T(!new)>(xs: seq<T>, ys: seq<T>)
    requires NoDuplicates(xs)
    ensures NoDuplicates(AddAll(xs, ys))
    decreases |ys|
  {
    if ys != [] {
      AddAllNoDuplicates(SetAdd(xs, ys[0]), ys[1..]);
    }
  }

  lemma {:induction false} SetDeleteAppend<T(!new)>(a: seq<T>, b: seq<T>, x: T)
    ensures SetDelete(a + b, x) == SetDelete(a, x) + SetDelete(b, x)
    decreases |a|
  {
    if a == [] {
      assert a + b == b;
    } else {
      SetDeleteAppend(a[1..], b, x);
      assert (a + b)[0] == a[0];
      assert (a + b)[1..] == a[1..] + b;
    }
  }

  /** Adding one element after two sets agree outside `x` keeps them agreeing
      outside `x`. */
  lemma SetAddRespectsDelete<T(!new)>(a: seq<T>, b: seq<T>, y: T, x: T)
    requires SetDelete(a, x) == SetDelete(b, x)
    ensures SetDelete(SetAdd(a, y), x) == SetDelete(SetAdd(b, y), x)
  {
    SetDeleteAppend(a, [y], x);
    SetDeleteAppend(b, [y], x);
    if y != x {
      SetDeleteMembers(a, x);
      SetDeleteMembers(b, x);
      assert y in a <==> y in b;
    }
  }

  /** Deleting `x` before further additions changes nothing once `x` is
      deleted again: why the `delete` inside the `forEach` leaves the same
      final set as one `delete` at the end would. */
  lemma {:induction false} AddAllRespectsDelete<T(!new)>(a: seq<T>, b: seq<T>, ys: seq<T>, x: T)
    requires SetDelete(a, x) == SetDelete(b, x)
    ensures SetDelete(AddAll(a, ys), x) == SetDelete(AddAll(b, ys), x)
    decreases |ys|
  {
    if ys != [] {
      SetAddRespectsDelete(a, b, ys[0], x);
      AddAllRespectsDelete(SetAdd(a, ys[0]), SetAdd(b, ys[0]), ys[1..], x);
    }
  }

  /** Adding `xs` and then `ys` is adding `xs + ys`. */
  lemma {:induction false} AddAllAppend<T(!new)>(a: seq<T>, xs: seq<T>, ys: seq<T>)
    ensures AddAll(AddAll(a, xs), ys) == AddAll(a, xs + ys)
    decreases |xs|
  {
    if xs == [] {
      assert xs + ys == ys;
    } else {
      var zs := xs + ys;
      assert zs[0] == xs[0] && zs[1..] == xs[1..] + ys;
      assert AddAll(a, zs) == AddAll(SetAdd(a, xs[0]), xs[1..] + ys);
      AddAllAppend(SetAdd(a, xs[0]), xs[1..], ys);
      assert AddAll(a, xs) == AddAll(SetAdd(a, xs[0]), xs[1..]);
    }
  }

  /** The set after the first `k` regexes of the `forEach` have each added
      their captures and then deleted the parent's id. */
  function Accumulated(s: string, parent: string, k: nat): seq<string>
    requires k <= |KepRegexes|
  {
    if k == 0 then []
    else SetDelete(AddAll(Accumulated(s, parent, k - 1), Captures(KepRegexes[k - 1], s)), parent)
  }

  /** The entry `parseCitations(markdown, parent)` stores under `parent`:
      `[]` for empty content, otherwise the set left after all four regexes. */
  function Entry(markdown: string, parent: string): seq<string> {
    if |markdown| == 0 then [] else Accumulated(markdown, parent, |KepRegexes|)
  }

  /** The captures of the first `k` regexes, pattern after pattern. */
  function CapturesOfFirst(s: string, k: nat): seq<string>
    requires k <= |KepRegexes|
  {
    if k == 0 then [] else CapturesOfFirst(s, k - 1) + Captures(KepRegexes[k - 1], s)
  }

  /** The captures of all four regexes, pattern after pattern. */
  function AllCaptures(s: string): seq<string> {
    Captures(KepDash, s) + Captures(KepHash, s) + Captures(KepSpace, s) + Captures(IssueUrl, s)
  }

  lemma AllCapturesOfFirst(s: string)
    ensures CapturesOfFirst(s, |KepRegexes|) == AllCaptures(s)
  {
    assert CapturesOfFirst(s, 0) == [];
    assert CapturesOfFirst(s, 1) == [] + Captures(KepDash, s);
    assert CapturesOfFirst(s, 2) == CapturesOfFirst(s, 1) + Captures(KepHash, s);
    assert CapturesOfFirst(s, 3) == CapturesOfFirst(s, 2) + Captures(KepSpace, s);
    assert CapturesOfFirst(s, 4) == CapturesOfFirst(s, 3) + Captures(IssueUrl, s);
  }

  /** Some regex captures `x` in `s`. */
  ghost predicate Captured(s: string, x: string) {
    exists p :: p in KepRegexes && x in Captures(p, s)
  }

  lemma AllCapturesMembers(s: string, x: string)
    ensures x in AllCaptures(s) <==> Captured(s, x)
  {
    AllCapturesAreCaptured(s, x);
    CapturedIsInAllCaptures(s, x);
  }

  lemma AllCapturesAreCaptured(s: string, x: string)
    ensures x in AllCaptures(s) ==> Captured(s, x)
  {
    var a, b, c, d := Captures(KepDash, s), Captures(KepHash, s), Captures(KepSpace, s), Captures(IssueUrl, s);
    InFour(a, b, c, d, x);
    assert KepRegexes[0] == KepDash && KepRegexes[1] == KepHash;
    assert KepRegexes[2] == KepSpace && KepRegexes[3] == IssueUrl;
  }

  lemma CapturedIsInAllCaptures(s: string, x: string)
    ensures Captured(s, x) ==> x in AllCaptures(s)
  {
    if Captured(s, x) {
      var p :| p in KepRegexes && x in Captures(p, s);
      match p
      case KepDash =>
      case KepHash =>
      case KepSpace =>
      case IssueUrl =>
    }
  }

  lemma InFour<T>(a: seq<T>, b: seq<T>, c: seq<T>, d: seq<T>, x: T)
    ensures x in a + b + c + d <==> x in a || x in b || x in c || x in d
  {
  }

  /** One more batch of additions followed by a delete, starting from the
      pruned dedup of `xs`, is the pruned dedup of `xs + ys`. */
  lemma AddBatchThenDelete<T(!new)>(xs: seq<T>, ys: seq<T>, x: T)
    ensures SetDelete(AddAll(SetDelete(Dedup(xs), x), ys), x) == SetDelete(Dedup(xs + ys), x)
  {
    var d := Dedup(xs);
    SetDeleteTwice(d, x);
    AddAllRespectsDelete(SetDelete(d, x), d, ys, x);
    AddAllAppend([], xs, ys);
  }

  lemma {:induction false} AccumulatedIsDedup(s: string, parent: string, k: nat)
    requires k <= |KepRegexes|
    ensures Accumulated(s, parent, k) == SetDelete(Dedup(CapturesOfFirst(s, k)), parent)
  {
    if k > 0 {
      AccumulatedIsDedup(s, parent, k - 1);
      AddBatchThenDelete(CapturesOfFirst(s, k - 1), Captures(KepRegexes[k - 1], s), parent);
    }
  }

  /** The reference definition of an entry: the distinct captures of the four
      regexes, pattern 1's in text order first, then the new ones of
      patterns 2, 3 and 4 in turn, with the parent's id removed. */
  lemma EntryIsUnionOfCaptures(markdown: string, parent: string)
    ensures Entry(markdown, parent) == SetDelete(Dedup(AllCaptures(markdown)), parent)
  {
    if |markdown| == 0 {
      assert AllCaptures(markdown) == [];
    } else {
      AccumulatedIsDedup(markdown, parent, |KepRegexes|);
      AllCapturesOfFirst(markdown);
    }
  }

  /** An id is in the entry exactly when some regex captures it and it is not
      the parent's id. */
  lemma EntryMembers(markdown: string, parent: string, x: string)
    ensures x in Entry(markdown, parent) <==> |markdown| > 0 && x != parent && Captured(markdown, x)
  {
    if |markdown| > 0 {
      EntryIsUnionOfCaptures(markdown, parent);
      SetDeleteMembers(Dedup(AllCaptures(markdown)), parent);
      AddAllMembers([], AllCaptures(markdown));
      AllCapturesMembers(markdown, x);
    }
  }

  /** The stored entry never holds the parent's id, holds no id twice, and
      holds only non-empty ASCII-digit strings. */
  lemma EntryWellFormed(markdown: string, parent: string)
    ensures parent !in Entry(markdown, parent)
    ensures NoDuplicates(Entry(markdown, parent))
    ensures forall x :: x in Entry(markdown, parent) ==> IsNumeral(x)
  {
    EntryMembers(markdown, parent, parent);
    if |markdown| > 0 {
      EntryIsUnionOfCaptures(markdown, parent);
      AddAllNoDuplicates([], AllCaptures(markdown));
      SetDeleteNoDuplicates(Dedup(AllCaptures(markdown)), parent);
      forall x | x in Entry(markdown, parent) ensures IsNumeral(x) {
        EntryMembers(markdown, parent, x);
        var p :| p in KepRegexes && x in Captures(p, markdown);
        CapturesAreNumerals(p, markdown);
      }
    }
  }

  /** Non-empty content in which no regex matches still yields `[]`. */
  lemma NoMatchesGivesEmptyEntry(markdown: string, parent: string)
    requires forall p :: p in KepRegexes ==> Captures(p, markdown) == []
    ensures Entry(markdown, parent) == []
  {
    var e := Entry(markdown, parent);
    if e != [] {
      EntryMembers(markdown, parent, e[0]);
    }
  }

  /** A parent id that is no numeral (the `undefined` key of a record without
      a number, for one) removes nothing: the entry is every distinct capture. */
  lemma NonNumeralParentRemovesNothing(markdown: string, parent: string)
    requires |markdown| > 0
    requires !IsNumeral(parent)
    ensures Entry(markdown, parent) == Dedup(AllCaptures(markdown))
  {
    EntryIsUnionOfCaptures(markdown, parent);
    var all := Dedup(AllCaptures(markdown));
    if parent in all {
      AddAllMembers([], AllCaptures(markdown));
      AllCapturesMembers(markdown, parent);
      var p :| p in KepRegexes && parent in Captures(p, markdown);
      CapturesAreNumerals(p, markdown);
    }
    SetDeleteAbsent(all, parent);
  }
}
