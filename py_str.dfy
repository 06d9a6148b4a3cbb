/** Python's `str.split(sep, maxsplit)` for a single-character separator, as
    the state parser calls it, together with `startswith`, `endswith`, `count`
    and `sep.join(parts)`, which state what `re.match`, `re.sub` and `split` do.
    Python strings are sequences of characters; so are Dafny's. */
module PyStr {

  /** `s.startswith(prefix)` */
  predicate StartsWith(s: string, prefix: string) {
    |prefix| <= |s| && s[..|prefix|] == prefix
  }

  /** `s.endswith(suffix)` */
  predicate EndsWith(s: string, suffix: string) {
    |suffix| <= |s| && s[|s| - |suffix|..] == suffix
  }

  /** `s.count(c)`: the number of occurrences of `c` in `s`. */
  function Count(s: string, c: char): nat
  {
    if s == [] then 0 else (if s[0] == c then 1 else 0) + Count(s[1..], c)
  }

  /** What is left of a split budget after one split; a negative budget, as
      in Python, means "no limit" and is never used up. */
  function Spend(maxsplit: int): int
  {
    if maxsplit > 0 then maxsplit - 1 else maxsplit
  }

  /** `s.split(sep, maxsplit)`: splits at the occurrences of `sep` from the left,
      at most `maxsplit` times (no limit when `maxsplit` is negative, which is
      what `s.split(sep)` passes); the last piece keeps every separator that
      was not split at. */
  function Split(s: string, sep: char, maxsplit: int): (parts: seq<string>)
    ensures |parts| >= 1
  {
    if s == [] then [""]
    else if s[0] == sep && maxsplit != 0 then [""] + Split(s[1..], sep, Spend(maxsplit))
    else
      var rest := Split(s[1..], sep, maxsplit);
      [[s[0]] + rest[0]] + rest[1..]
  }

  /** `sep.join(parts)` */
  function Join(parts: seq<string>, sep: char): string
  {
    if parts == [] then ""
    else if |parts| == 1 then parts[0]
    else parts[0] + [sep] + Join(parts[1..], sep)
  }

  /** The number of splits that `Split` performs on `s`. */
  function SplitsDone(s: string, sep: char, maxsplit: int): nat
  {
    if maxsplit < 0 || Count(s, sep) <= maxsplit then Count(s, sep) else maxsplit
  }

  lemma JoinCons(head: string, rest: seq<string>, sep: char)
    requires rest != []
    ensures Join([head] + rest, sep) == head + [sep] + Join(rest, sep)
  {
    assert ([head] + rest)[1..] == rest;
  }

  /** Putting a character in front of the first piece puts it in front of the join. */
  lemma JoinPrepend(c: char, first: string, rest: seq<string>, sep: char)
    ensures Join([[c] + first] + rest, sep) == [c] + Join([first] + rest, sep)
  {
    if rest != [] {
      JoinCons([c] + first, rest, sep);
      JoinCons(first, rest, sep);
    }
  }

  /** Round trip: joining the pieces of a split gives the string back. */
  lemma {:induction false} JoinSplit(s: string, sep: char, maxsplit: int)
    ensures Join(Split(s, sep, maxsplit), sep) == s
  {
    if s != [] {
      if s[0] == sep && maxsplit != 0 {
        var rest := Split(s[1..], sep, Spend(maxsplit));
        JoinSplit(s[1..], sep, Spend(maxsplit));
        JoinCons("", rest, sep);
        assert s == [sep] + s[1..];
      } else {
        var rest := Split(s[1..], sep, maxsplit);
        JoinSplit(s[1..], sep, maxsplit);
        JoinPrepend(s[0], rest[0], rest[1..], sep);
        assert [rest[0]] + rest[1..] == rest;
        assert s == [s[0]] + s[1..];
      }
    }
  }

  /** A split performs `min(count, maxsplit)` splits (every one when the
      budget is negative) and so yields one piece more. */
  lemma {:induction false} SplitLength(s: string, sep: char, maxsplit: int)
    ensures |Split(s, sep, maxsplit)| == SplitsDone(s, sep, maxsplit) + 1
  {
    if s != [] {
      if s[0] == sep && maxsplit != 0 {
        SplitLength(s[1..], sep, Spend(maxsplit));
      } else {
        SplitLength(s[1..], sep, maxsplit);
      }
    }
  }

  /** Every piece but the last is free of the separator. */
  lemma {:induction false} SplitInnerPiecesFree(s: string, sep: char, maxsplit: int)
    ensures forall j :: 0 <= j < |Split(s, sep, maxsplit)| - 1 ==> sep !in Split(s, sep, maxsplit)[j]
  {
    if s != [] {
      if s[0] == sep && maxsplit != 0 {
        var rest := Split(s[1..], sep, Spend(maxsplit));
        SplitInnerPiecesFree(s[1..], sep, Spend(maxsplit));
        forall j | 1 <= j < |rest| ensures sep !in ([""] + rest)[j] {
          assert ([""] + rest)[j] == rest[j - 1];
          assert sep !in rest[j - 1];
        }
      } else if s[0] != sep {
        var rest := Split(s[1..], sep, maxsplit);
        SplitInnerPiecesFree(s[1..], sep, maxsplit);
        forall j | 0 <= j < |rest| - 1 ensures sep !in ([[s[0]] + rest[0]] + rest[1..])[j] {
          assert sep !in rest[j];
          if j > 0 {
            assert ([[s[0]] + rest[0]] + rest[1..])[j] == rest[j];
          }
        }
      } else {
        SplitNone(s, sep);
      }
    }
  }

  /** The last piece is free of the separator too when the budget was not
      used up, so an unlimited split yields separator-free pieces only. */
  lemma {:induction false} SplitLastPieceFree(s: string, sep: char, maxsplit: int)
    requires maxsplit < 0 || Count(s, sep) <= maxsplit
    ensures var parts := Split(s, sep, maxsplit);
      sep !in parts[|parts| - 1]
  {
    if s != [] {
      if s[0] == sep {
        SplitLastPieceFree(s[1..], sep, Spend(maxsplit));
        assert Split(s, sep, maxsplit) == [""] + Split(s[1..], sep, Spend(maxsplit));
      } else {
        var rest := Split(s[1..], sep, maxsplit);
        SplitLastPieceFree(s[1..], sep, maxsplit);
        if |rest| == 1 {
          assert Split(s, sep, maxsplit) == [[s[0]] + rest[0]];
        } else {
          assert Split(s, sep, maxsplit)[|rest| - 1] == rest[|rest| - 1];
        }
      }
    }
  }

  /** A string without the separator is not split. */
  lemma {:induction false} SplitFree(s: string, sep: char, maxsplit: int)
    requires sep !in s
    ensures Split(s, sep, maxsplit) == [s]
  {
    if s != [] {
      SplitFree(s[1..], sep, maxsplit);
      assert [s[0]] + s[1..] == s;
    }
  }

  /** With no budget left nothing is split. */
  lemma {:induction false} SplitNone(s: string, sep: char)
    ensures Split(s, sep, 0) == [s]
  {
    if s != [] {
      SplitNone(s[1..], sep);
      assert [s[0]] + s[1..] == s;
    }
  }

  /** A separator-free head is split off as the first piece. */
  lemma {:induction false} SplitAfterHead(head: string, sep: char, tail: string, maxsplit: int)
    requires sep !in head && maxsplit != 0
    ensures Split(head + [sep] + tail, sep, maxsplit) == [head] + Split(tail, sep, Spend(maxsplit))
  {
    var s := head + [sep] + tail;
    if head == [] {
      assert s[1..] == tail;
    } else {
      assert s[0] == head[0] && s[1..] == head[1..] + [sep] + tail;
      SplitAfterHead(head[1..], sep, tail, maxsplit);
      assert [head[0]] + head[1..] == head;
    }
  }

  /** Round trip the other way: separator-free pieces survive a join and an
      unlimited split. */
  lemma {:induction false} SplitJoin(parts: seq<string>, sep: char)
    requires |parts| >= 1
    requires forall p :: p in parts ==> sep !in p
    ensures Split(Join(parts, sep), sep, -1) == parts
  {
    if |parts| == 1 {
      SplitFree(parts[0], sep, -1);
    } else {
      JoinCons(parts[0], parts[1..], sep);
      assert [parts[0]] + parts[1..] == parts;
      SplitAfterHead(parts[0], sep, Join(parts[1..], sep), -1);
      SplitJoin(parts[1..], sep);
    }
  }
}
