/** The list helpers of the Extensions class. A C# null list or delegate is
    `None`; a thrown exception is the `Threw` outcome. Helpers whose source
    returns `default(T)` return `Option<T>` so that "nothing" and a stored
    default value stay apart. */
module Extensions {
  import opened Engine
  import opened Sequences
  import opened Arith

  datatype Error = ArgumentNull | NullReference | DuplicateKey | ArgumentOutOfRange

  /** The result of a call that may throw. */
  datatype Outcome<+T> = Returned(value: T) | Threw(error: Error)

  /** ConcatArrays(a, b): a fresh array holding a's elements, then b's;
      reading the length of a null array throws. */
  function ConcatArrays<T>(a: Option<seq<T>>, b: Option<seq<T>>): (r: Outcome<seq<T>>)
    ensures r.Threw? <==> a.None? || b.None?
    ensures r.Threw? ==> r.error == NullReference
    ensures r.Returned? ==> |r.value| == |a.value| + |b.value|
    ensures r.Returned? ==> r.value[..|a.value|] == a.value && r.value[|a.value|..] == b.value
  {
    if a.None? || b.None? then Threw(NullReference)
    else Returned(a.value + b.value)
  }

  /** ElementAtOrDefault(list, index): the element at index, or nothing for a
      null list or an index outside [0, |list|). */
  function ElementAtOrDefault<T>(list: Option<seq<T>>, index: int): (r: Option<T>)
    ensures r.Some? <==> list.Some? && 0 <= index < |list.value|
    ensures r.Some? ==> r.value == list.value[index]
  {
    if list.None? || index < 0 || index >= |list.value| then None
    else Some(list.value[index])
  }

  /** Position of the first element satisfying p, or -1: the early-return
      foreach shared by FirstOrDefault, Any and All. */
  function FirstIndex<T>(s: seq<T>, p: T -> bool): (k: int)
    ensures -1 <= k < |s|
    ensures k >= 0 ==> p(s[k]) && forall j :: 0 <= j < k ==> !p(s[j])
    ensures k == -1 <==> forall j :: 0 <= j < |s| ==> !p(s[j])
  {
    if s == [] then -1
    else if p(s[0]) then 0
    else
      var k := FirstIndex(s[1..], p);
      if k == -1 then -1 else k + 1
  }

  /** FirstOrDefault(list, predicate): the earliest satisfying element. */
  function FirstOrDefault<T>(list: Option<seq<T>>, pred: Option<T -> bool>): (r: Outcome<Option<T>>)
    ensures r.Threw? <==> list.None? || pred.None?
    ensures r.Threw? ==> r.error == ArgumentNull
    ensures r.Returned? ==>
              (r.value.None? <==> forall j :: 0 <= j < |list.value| ==> !pred.value(list.value[j]))
    ensures r.Returned? && r.value.Some? ==>
              exists k :: 0 <= k < |list.value| && r.value.value == list.value[k] && pred.value(list.value[k])
                          && forall j :: 0 <= j < k ==> !pred.value(list.value[j])
  {
    if list.None? || pred.None? then Threw(ArgumentNull)
    else
      var k := FirstIndex(list.value, pred.value);
      if k == -1 then Returned(None) else Returned(Some(list.value[k]))
  }

  /** The number of elements satisfying p. */
  function CountWhere<T>(s: seq<T>, p: T -> bool): (n: nat)
    ensures n <= |s|
  {
    if s == [] then 0 else (if p(s[0]) then 1 else 0) + CountWhere(s[1..], p)
  }

  lemma {:induction false} CountWhereZero<T>(s: seq<T>, p: T -> bool)
    ensures CountWhere(s, p) == 0 <==> forall j :: 0 <= j < |s| ==> !p(s[j])
  {
    if s != [] {
      CountWhereZero(s[1..], p);
      assert forall j :: 1 <= j < |s| ==> s[j] == s[1..][j - 1];
    }
  }

  /** Appending one element adds one to the count exactly when it satisfies. */
  lemma {:induction false} CountWhereSnoc<T>(s: seq<T>, x: T, p: T -> bool)
    ensures CountWhere(s + [x], p) == CountWhere(s, p) + (if p(x) then 1 else 0)
  {
    if s == [] {
      assert s + [x] == [x] && [x][1..] == [];
    } else {
      assert (s + [x])[0] == s[0];
      assert (s + [x])[1..] == s[1..] + [x];
      CountWhereSnoc(s[1..], x, p);
    }
  }

  /** The positions of s whose element satisfies p. */
  ghost function Hits<T>(s: seq<T>, p: T -> bool): set<int>
  {
    set j | 0 <= j < |s| && p(s[j])
  }

  /** CountWhere counts exactly the satisfying positions. */
  lemma {:induction false} CountWhereHits<T>(s: seq<T>, p: T -> bool)
    ensures CountWhere(s, p) == |Hits(s, p)|
    decreases |s|
  {
    if s == [] {
      assert Hits(s, p) == {};
    } else {
      var n := |s| - 1;
      var t := s[..n];
      assert s == t + [s[n]];
      CountWhereHits(t, p);
      CountWhereSnoc(t, s[n], p);
      if p(s[n]) {
        assert Hits(s, p) == Hits(t, p) + {n};
      } else {
        assert Hits(s, p) == Hits(t, p);
      }
    }
  }

  lemma {:induction false} CountWhereAll<T>(s: seq<T>, p: T -> bool)
    ensures CountWhere(s, p) == |s| <==> forall j :: 0 <= j < |s| ==> p(s[j])
  {
    if s != [] {
      CountWhereAll(s[1..], p);
      assert forall j :: 1 <= j < |s| ==> s[j] == s[1..][j - 1];
    }
  }

  /** Any(list, predicate): true as soon as one element satisfies it. */
  function Any<T>(list: Option<seq<T>>, pred: Option<T -> bool>): (r: Outcome<bool>)
    ensures r.Threw? <==> list.None? || pred.None?
    ensures r.Threw? ==> r.error == ArgumentNull
    ensures r.Returned? ==> (r.value <==> CountWhere(list.value, pred.value) > 0)
  {
    if list.None? || pred.None? then Threw(ArgumentNull)
    else
      CountWhereZero(list.value, pred.value);
      Returned(FirstIndex(list.value, pred.value) != -1)
  }

  /** All(list, predicate): false as soon as one element fails it. */
  function All<T>(list: Option<seq<T>>, pred: Option<T -> bool>): (r: Outcome<bool>)
    ensures r.Threw? <==> list.None? || pred.None?
    ensures r.Threw? ==> r.error == ArgumentNull
    ensures r.Returned? ==> (r.value <==> CountWhere(list.value, pred.value) == |list.value|)
  {
    if list.None? || pred.None? then Threw(ArgumentNull)
    else
      var p := pred.value;
      CountWhereAll(list.value, p);
      Returned(FirstIndex(list.value, x => !p(x)) == -1)
  }

  /** Count(items, predicate). */
  function Count<T>(items: Option<seq<T>>, pred: Option<T -> bool>): (r: Outcome<nat>)
    ensures r.Threw? <==> items.None? || pred.None?
    ensures r.Threw? ==> r.error == ArgumentNull
    ensures r.Returned? ==> r.value <= |items.value|
    ensures r.Returned? ==> (r.value == 0 <==> forall j :: 0 <= j < |items.value| ==> !pred.value(items.value[j]))
    ensures r.Returned? ==> r.value == |Hits(items.value, pred.value)|
  {
    if items.None? || pred.None? then Threw(ArgumentNull)
    else
      CountWhereZero(items.value, pred.value);
      CountWhereHits(items.value, pred.value);
      Returned(CountWhere(items.value, pred.value))
  }

  /** The mathematical sum of f over s. */
  function SumOf<T>(s: seq<T>, f: T -> int): int
  {
    if s == [] then 0 else f(s[0]) + SumOf(s[1..], f)
  }

  /** The foreach of Sum(list, selector) from accumulator acc, each `+=`
      wrapping as C# `int` does outside a checked context. */
  function SumFrom<T>(acc: int, s: seq<T>, f: T -> int): (r: int)
    requires Int32Min <= acc < Int32Min + Int32Span
    ensures r == Wrap32(acc + SumOf(s, f))
    decreases |s|
  {
    if s == [] then acc
    else
      WrapAdd(acc + f(s[0]), SumOf(s[1..], f));
      SumFrom(Wrap32(acc + f(s[0])), s[1..], f)
  }

  /** Sum(list, selector) over ints: the true sum wrapped to 32 bits. */
  function Sum<T>(list: Option<seq<T>>, selector: Option<T -> int>): (r: Outcome<int>)
    ensures r.Threw? <==> list.None? || selector.None?
    ensures r.Threw? ==> r.error == ArgumentNull
    ensures r.Returned? ==> r.value == Wrap32(SumOf(list.value, selector.value))
  {
    if list.None? || selector.None? then Threw(ArgumentNull)
    else Returned(SumFrom(0, list.value, selector.value))
  }

  /** The foreach of Select: one selector result per element. */
  function Map<T, U>(s: seq<T>, f: T -> U): (r: seq<U>)
    ensures |r| == |s|
    ensures forall i :: 0 <= i < |s| ==> r[i] == f(s[i])
  {
    if s == [] then [] else [f(s[0])] + Map(s[1..], f)
  }

  /** Select(list, selector), for arrays and lists alike. */
  function Select<T, U>(list: Option<seq<T>>, selector: Option<T -> U>): (r: Outcome<seq<U>>)
    ensures r.Threw? <==> list.None? || selector.None?
    ensures r.Threw? ==> r.error == ArgumentNull
    ensures r.Returned? ==> |r.value| == |list.value|
    ensures r.Returned? ==> forall i :: 0 <= i < |list.value| ==> r.value[i] == selector.value(list.value[i])
  {
    if list.None? || selector.None? then Threw(ArgumentNull)
    else Returned(Map(list.value, selector.value))
  }

  /** The copying loop of Take: the first n elements, or all of s. */
  function Prefix<T>(s: seq<T>, n: nat): (r: seq<T>)
    ensures n <= |s| ==> r == s[..n]
    ensures n > |s| ==> r == s
  {
    if n == 0 || s == [] then []
    else [s[0]] + Prefix(s[1..], n - 1)
  }

  /** Take(list, count): empty for count <= 0, else the prefix of length
      min(count, |list|). */
  function Take<T>(list: Option<seq<T>>, count: int): (r: Outcome<seq<T>>)
    ensures r.Threw? <==> list.None?
    ensures r.Threw? ==> r.error == ArgumentNull
    ensures r.Returned? && count <= 0 ==> r.value == []
    ensures r.Returned? && 0 < count <= |list.value| ==> r.value == list.value[..count]
    ensures r.Returned? && count > |list.value| ==> r.value == list.value
  {
    if list.None? then Threw(ArgumentNull)
    else if count <= 0 then Returned([])
    else Returned(Prefix(list.value, if count < |list.value| then count else |list.value|))
  }

  /** The foreach of Where: the satisfying elements, in order. */
  function Filter<T(==)>(s: seq<T>, p: T -> bool): (r: seq<T>)
    ensures |r| == CountWhere(s, p)
    ensures forall i :: 0 <= i < |r| ==> r[i] in s && p(r[i])
    ensures forall i :: 0 <= i < |s| && p(s[i]) ==> s[i] in r
    ensures forall x :: x in s ==> multiset(r)[x] == if p(x) then multiset(s)[x] else 0
  {
    if s == [] then []
    else
      assert s == [s[0]] + s[1..];
      if p(s[0]) then [s[0]] + Filter(s[1..], p)
      else Filter(s[1..], p)
  }

  /** Filtering keeps relative order: it distributes over concatenation. */
  lemma {:induction false} FilterAppend<T>(a: seq<T>, b: seq<T>, p: T -> bool)
    ensures Filter(a + b, p) == Filter(a, p) + Filter(b, p)
  {
    if a == [] {
      assert a + b == b;
    } else {
      assert (a + b)[0] == a[0];
      assert (a + b)[1..] == a[1..] + b;
      FilterAppend(a[1..], b, p);
    }
  }

  /** Where(list, predicate): the satisfying elements, each as often as in
      the list and in the list's order (see FilterAppend). */
  function Where<T(==)>(list: Option<seq<T>>, pred: Option<T -> bool>): (r: Outcome<seq<T>>)
    ensures r.Threw? <==> list.None? || pred.None?
    ensures r.Threw? ==> r.error == ArgumentNull
    ensures r.Returned? ==> r.value == Filter(list.value, pred.value)
    ensures r.Returned? ==> forall x :: x in list.value ==> multiset(r.value)[x] == if pred.value(x) then multiset(list.value)[x] else 0
    ensures r.Returned? ==> |r.value| == CountWhere(list.value, pred.value)
    ensures r.Returned? ==> forall i :: 0 <= i < |r.value| ==> r.value[i] in list.value && pred.value(r.value[i])
    ensures r.Returned? ==> forall i :: 0 <= i < |list.value| && pred.value(list.value[i]) ==> list.value[i] in r.value
  {
    if list.None? || pred.None? then Threw(ArgumentNull)
    else Returned(Filter(list.value, pred.value))
  }

  /** The foreach of ToDictionary, continuing from dictionary `acc`. */
  function Insert<T, K, V>(acc: map<K, V>, s: seq<T>, key: T -> K, value: T -> V): (r: Outcome<map<K, V>>)
    ensures r.Threw? ==> r.error == DuplicateKey
    ensures r.Returned? ==> forall k :: k in acc ==> k in r.value && r.value[k] == acc[k]
    ensures r.Returned? ==> forall i :: 0 <= i < |s| ==> key(s[i]) in r.value && r.value[key(s[i])] == value(s[i])
    decreases |s|
  {
    if s == [] then Returned(acc)
    else
      var k := key(s[0]);
      if k in acc then Threw(DuplicateKey)
      else
        var r := Insert(acc[k := value(s[0])], s[1..], key, value);
        assert forall i :: 1 <= i < |s| ==> s[i] == s[1..][i - 1];
        r
  }

  /** Insert fails exactly when a key repeats, within s or against acc. */
  lemma {:induction false} InsertFails<T, K, V>(acc: map<K, V>, s: seq<T>, key: T -> K, value: T -> V)
    ensures Insert(acc, s, key, value).Returned? <==>
              NoDup(Map(s, key)) && forall i :: 0 <= i < |s| ==> key(s[i]) !in acc
    decreases |s|
  {
    if s != [] {
      var k := key(s[0]);
      var ks := Map(s, key);
      assert ks == [k] + Map(s[1..], key);
      if k !in acc {
        InsertFails(acc[k := value(s[0])], s[1..], key, value);
        assert forall i :: 1 <= i < |s| ==> s[i] == s[1..][i - 1];
        assert forall i :: 1 <= i < |ks| ==> ks[i] == Map(s[1..], key)[i - 1];
      }
    }
  }

  /** A successful Insert holds acc's keys plus one key per element, and no
      other key. */
  lemma {:induction false} InsertKeys<T, K, V>(acc: map<K, V>, s: seq<T>, key: T -> K, value: T -> V)
    requires Insert(acc, s, key, value).Returned?
    ensures Insert(acc, s, key, value).value.Keys == acc.Keys + KeySet(s, key)
    decreases |s|
  {
    if s != [] {
      var k := key(s[0]);
      var acc' := acc[k := value(s[0])];
      assert Insert(acc, s, key, value) == Insert(acc', s[1..], key, value);
      InsertKeys(acc', s[1..], key, value);
      KeySetCons(s, key);
    }
  }

  /** The keys selected from s. */
  ghost function KeySet<T, K>(s: seq<T>, key: T -> K): set<K>
  {
    set i | 0 <= i < |s| :: key(s[i])
  }

  lemma KeySetCons<T, K>(s: seq<T>, key: T -> K)
    requires s != []
    ensures KeySet(s, key) == {key(s[0])} + KeySet(s[1..], key)
  {
    assert forall i :: 1 <= i < |s| ==> s[i] == s[1..][i - 1];
    forall x | x in KeySet(s, key)
      ensures x in {key(s[0])} + KeySet(s[1..], key)
    {
      var i :| 0 <= i < |s| && key(s[i]) == x;
      if i > 0 {
        assert key(s[1..][i - 1]) == x;
      }
    }
  }

  /** A successful Insert adds exactly one entry per element. */
  lemma {:induction false} InsertSize<T, K, V>(acc: map<K, V>, s: seq<T>, key: T -> K, value: T -> V)
    requires Insert(acc, s, key, value).Returned?
    ensures |Insert(acc, s, key, value).value| == |acc| + |s|
    decreases |s|
  {
    if s != [] {
      var k := key(s[0]);
      var acc' := acc[k := value(s[0])];
      assert k !in acc;
      assert |acc'| == |acc| + 1;
      assert Insert(acc, s, key, value) == Insert(acc', s[1..], key, value);
      InsertSize(acc', s[1..], key, value);
    }
  }

  /** ToDictionary(list, keySelector, valueSelector): one entry per element;
      a repeated key throws. */
  function ToDictionary<T, K, V>(list: Option<seq<T>>, keySelector: Option<T -> K>, valueSelector: Option<T -> V>): (r: Outcome<map<K, V>>)
    ensures r.Threw? <==> list.None? || keySelector.None? || valueSelector.None? || !NoDup(Map(list.value, keySelector.value))
    ensures list.None? || keySelector.None? || valueSelector.None? ==> r == Threw(ArgumentNull)
    ensures r.Threw? && list.Some? && keySelector.Some? && valueSelector.Some? ==> r.error == DuplicateKey
    ensures r.Returned? ==> r.value.Keys == KeySet(list.value, keySelector.value)
    ensures r.Returned? ==> |r.value| == |list.value|
    ensures r.Returned? ==> forall i :: 0 <= i < |list.value| ==> r.value[keySelector.value(list.value[i])] == valueSelector.value(list.value[i])
  {
    if list.None? || keySelector.None? || valueSelector.None? then Threw(ArgumentNull)
    else
      var r := Insert(map[], list.value, keySelector.value, valueSelector.value);
      InsertFails(map[], list.value, keySelector.value, valueSelector.value);
      if r.Returned? then
        InsertKeys(map[], list.value, keySelector.value, valueSelector.value);
        InsertSize(map[], list.value, keySelector.value, valueSelector.value);
        r
      else r
  }

  /** SafeTake(list, count) = Take(Min(|list|, count)); reading the count of
      a null list throws before Take is reached. */
  function SafeTake<T>(list: Option<seq<T>>, count: int): (r: Outcome<seq<T>>)
    ensures list.None? ==> r == Threw(NullReference)
    ensures list.Some? ==> r == Take(list, count)
  {
    if list.None? then Threw(NullReference)
    else Take(list, if |list.value| < count then |list.value| else count)
  }

  function LowerAscii(c: char): (d: char)
    ensures !('A' <= d <= 'Z')
    ensures !('A' <= c <= 'Z') ==> d == c
    ensures 'A' <= c <= 'Z' ==> d as int == c as int + 32
  {
    if 'A' <= c <= 'Z' then (c as int + 32) as char else c
  }

  predicate NotSpace(c: char)
  {
    c != ' '
  }

  /** ToCleanString: spaces removed, letters lower-cased. */
  function ToCleanString(str: string): (r: string)
    ensures |r| <= |str|
    ensures forall i :: 0 <= i < |r| ==> r[i] != ' ' && !('A' <= r[i] <= 'Z')
    ensures (forall i :: 0 <= i < |str| ==> str[i] != ' ' && !('A' <= str[i] <= 'Z')) ==> r == str
  {
    if str == [] then []
    else if str[0] == ' ' then ToCleanString(str[1..])
    else [LowerAscii(str[0])] + ToCleanString(str[1..])
  }

  /** ToCleanString is the spaces filtered out, then every character
      lower-cased. */
  lemma {:induction false} CleanIsFilterThenLower(str: string)
    ensures ToCleanString(str) == Map(Filter(str, NotSpace), LowerAscii)
  {
    if str != [] {
      CleanIsFilterThenLower(str[1..]);
      if str[0] != ' ' {
        var rest := Filter(str[1..], NotSpace);
        assert Filter(str, NotSpace) == [str[0]] + rest;
        assert ([str[0]] + rest)[1..] == rest;
      }
    }
  }

  /** Cleaning a clean string changes nothing. */
  lemma CleanIdempotent(str: string)
    ensures ToCleanString(ToCleanString(str)) == ToCleanString(str)
  {
  }

  /** ShuffleInPlace's `end == -1` default: the last index. */
  function LastIndex(count: int, end: int): (last: int)
    ensures end != -1 ==> last == end
    ensures end == -1 && count > 0 ==> 0 <= last < count && last + 1 == count
  {
    if end == -1 then count - 1 else end
  }

  /** Every index the loop from `last` down to start + 1 touches is valid. */
  predicate InPlaceBounds(count: int, start: int, last: int)
  {
    last <= start || (-1 <= start && last < count)
  }

  /** Draws for the descending loop as written: the k-th draw, taken when
      i = last - k, is Random.Range(0, i + 1), which lies in [0, i]. */
  predicate DescendingRolls(rolls: seq<int>, start: int, last: int)
  {
    |rolls| >= last - start && forall k :: 0 <= k < last - start ==> 0 <= rolls[k] <= last - k
  }

  /** Draws as Random.Range(start, i + 1) would give them: within [start, i]. */
  predicate RangeRolls(rolls: seq<int>, start: int, last: int)
  {
    |rolls| >= last - start && forall k :: 0 <= k < last - start ==> 0 <= rolls[k] && start <= rolls[k] <= last - k
  }

  /** Whether the loop turn at index i has a draw in [0, i] to use. Under
      DescendingRolls every turn does; the predicate keeps SwapDown total. */
  predicate TurnFits<T>(s: seq<T>, last: int, i: int, rolls: seq<int>)
  {
    0 <= i < |s| && 0 <= last - i < |rolls| && 0 <= rolls[last - i] <= i
  }

  /** The swaps of the descending loop from index `last` down to start + 1,
      resumed at index i; the draw for index i is rolls[last - i]. */
  function SwapDown<T>(s: seq<T>, last: int, i: int, start: int, rolls: seq<int>): (r: seq<T>)
    ensures |r| == |s|
    decreases i - start
  {
    if i <= start || !TurnFits(s, last, i, rolls) then s
    else SwapDown(Swap(s, i, rolls[last - i]), last, i - 1, start, rolls)
  }

  /** Draws in [start, i] are in particular draws in [0, i], and none is
      below start. */
  lemma RangeRollsDescend(rolls: seq<int>, start: int, last: int)
    requires RangeRolls(rolls, start, last)
    ensures DescendingRolls(rolls, start, last)
    ensures forall m :: 0 <= m < last - start && m < |rolls| ==> start <= rolls[m]
  {
  }

  /** Under DescendingRolls every turn of the loop has its draw. */
  lemma DescendingTurnFits<T>(s: seq<T>, last: int, i: int, start: int, rolls: seq<int>)
    requires InPlaceBounds(|s|, start, last) && DescendingRolls(rolls, start, last) && start < i <= last
    ensures TurnFits(s, last, i, rolls)
    ensures SwapDown(s, last, i, start, rolls) == SwapDown(Swap(s, i, rolls[last - i]), last, i - 1, start, rolls)
  {
    assert 0 <= last - i < last - start;
  }

  /** The loop only swaps, so it permutes the list. */
  lemma {:induction false} SwapDownPermutes<T>(s: seq<T>, last: int, i: int, start: int, rolls: seq<int>)
    ensures multiset(SwapDown(s, last, i, start, rolls)) == multiset(s)
    decreases i - start
  {
    if i > start && TurnFits(s, last, i, rolls) {
      SwapMultiset(s, i, rolls[last - i]);
      SwapDownPermutes(Swap(s, i, rolls[last - i]), last, i - 1, start, rolls);
    }
  }

  /** No index above the current one is touched. */
  lemma {:induction false} SwapDownKeepsAbove<T>(s: seq<T>, last: int, i: int, start: int, rolls: seq<int>, k: int)
    requires i < k < |s| && 0 <= k
    ensures SwapDown(s, last, i, start, rolls)[k] == s[k]
    decreases i - start
  {
    if i > start && TurnFits(s, last, i, rolls) {
      SwapDownKeepsAbove(Swap(s, i, rolls[last - i]), last, i - 1, start, rolls, k);
    }
  }

  /** With every draw at least start, no index below start is touched. */
  lemma {:induction false} SwapDownKeepsBelowStart<T>(s: seq<T>, last: int, i: int, start: int, rolls: seq<int>, k: int)
    requires forall m :: 0 <= m < last - start && m < |rolls| ==> start <= rolls[m]
    requires 0 <= k < start && k < |s|
    ensures SwapDown(s, last, i, start, rolls)[k] == s[k]
    decreases i - start
  {
    if i > start && TurnFits(s, last, i, rolls) {
      assert start <= rolls[last - i];
      SwapDownKeepsBelowStart(Swap(s, i, rolls[last - i]), last, i - 1, start, rolls, k);
    }
  }

  /** The lowest index the loop of ShuffleInPlace can swap at before an
      out-of-range index stops it: start, or -1 when start lies below -1. */
  function Floor(start: int): int
  {
    if start < -1 then -1 else start
  }

  /** ShuffleInPlace(list, start, end) as written: j is drawn from [0, i].
      The first turn whose index i lies outside the list throws before it
      writes: at once when the last index lies past the end, and after the
      turn at index 0 when start lies below -1. */
  method ShuffleInPlace<T>(list: array<T>, start: int, end: int, rolls: seq<int>) returns (result: Outcome<array<T>>)
    requires DescendingRolls(rolls, Floor(start), LastIndex(list.Length, end))
    modifies list
    ensures result.Returned? <==> InPlaceBounds(list.Length, start, LastIndex(list.Length, end))
    ensures result.Returned? ==> result.value == list
    ensures result.Threw? ==> result.error == ArgumentOutOfRange
    ensures var last := LastIndex(list.Length, end);
      list[..] == if last > start && last >= list.Length then old(list[..])
                  else SwapDown(old(list[..]), last, last, Floor(start), rolls)
  {
    ghost var original := list[..];
    var last := if end == -1 then list.Length - 1 else end;
    ghost var floor := Floor(start);
    var i := last;
    while i > start
      invariant i <= last && (i == last ==> list[..] == original)
      invariant i < last ==> floor <= i && 0 <= last < list.Length
      invariant SwapDown(list[..], last, i, floor, rolls) == SwapDown(original, last, last, floor, rolls)
      decreases i - start
    {
      if i < 0 || i >= list.Length {
        return Threw(ArgumentOutOfRange);
      }
      ghost var before := list[..];
      DescendingTurnFits(before, last, i, floor, rolls);
      var j := rolls[last - i];
      var value := list[j];
      list[j] := list[i];
      list[i] := value;
      assert list[..] == Swap(before, i, j);
      i := i - 1;
    }
    result := Returned(list);
  }

  /** ShuffleRange: ShuffleInPlace with j drawn from [start, i], as its start
      parameter promises. Indices outside [start, end] keep their elements. */
  method ShuffleRange<T>(list: array<T>, start: int, end: int, rolls: seq<int>) returns (result: array<T>)
    requires InPlaceBounds(list.Length, start, LastIndex(list.Length, end))
    requires RangeRolls(rolls, start, LastIndex(list.Length, end))
    modifies list
    ensures result == list
    ensures multiset(list[..]) == multiset(old(list[..]))
    ensures forall k :: 0 <= k < list.Length && (k < start || k > LastIndex(list.Length, end)) ==> list[k] == old(list[k])
  {
    var last := LastIndex(list.Length, end);
    RangeRollsDescend(rolls, start, last);
    ghost var before := list[..];
    SwapDownPermutes(before, last, last, start, rolls);
    forall k | 0 <= k < list.Length && (k < start || k > last)
      ensures SwapDown(before, last, last, start, rolls)[k] == before[k]
    {
      if k < start {
        SwapDownKeepsBelowStart(before, last, last, start, rolls, k);
      } else {
        SwapDownKeepsAbove(before, last, last, start, rolls, k);
      }
    }
    var shuffled := ShuffleInPlace(list, start, end, rolls);
    result := shuffled.value;
  }

  /** With start = 1 and end = 2 the as-written loop can move the element at
      index 0: drawing 0 for i = 2 swaps indices 2 and 0. */
  lemma ShuffleInPlaceLeavesRange()
    ensures InPlaceBounds(3, 1, 2) && DescendingRolls([0], 1, 2)
    ensures SwapDown([10, 20, 30], 2, 2, 1, [0])[0] == 30
  {
    assert SwapDown([10, 20, 30], 2, 2, 1, [0]) == SwapDown([30, 20, 10], 2, 1, 1, [0]);
  }

  /** Shuffle(list): a shuffled copy, the input left as it is; the foreach
      over a null list throws. */
  method Shuffle<T>(list: Option<seq<T>>, rolls: seq<int>) returns (result: Outcome<seq<T>>)
    requires list.Some? ==> RangeRolls(rolls, 0, |list.value| - 1)
    ensures result.Threw? <==> list.None?
    ensures result.Threw? ==> result.error == NullReference
    ensures result.Returned? ==> |result.value| == |list.value| && multiset(result.value) == multiset(list.value)
  {
    if list.None? {
      return Threw(NullReference);
    }
    var items := list.value;
    var copy := new T[|items|](i requires 0 <= i < |items| => items[i]);
    assert copy[..] == items;
    var shuffled := ShuffleRange(copy, 0, -1, rolls);
    result := Returned(copy[..]);
  }
}
