/**
 * The few PHP values and built-in array/string operations that the search-index
 * document builder relies on: truthiness, the (string) and (array) casts,
 * `strpos(...) === 0`, `array_unique` + `array_values`, `explode(' ', ...)` and
 * `implode(' ', ...)`.
 */
module Php {

  /** A value as the index builder sees it. Scalars (strings and numbers) are kept in
      their string form; a PHP list is a sequence whose positions are its keys. */
  datatype Value = Null | Str(s: string) | Arr(items: seq<Value>)

  /** PHP's conversion to bool: null, "", "0" and [] are false. */
  predicate Truthy(v: Value)
  {
    match v
    case Null => false
    case Str(s) => s != "" && s != "0"
    case Arr(items) => items != []
  }

  /** PHP's (string) cast. An array converts to "Array". */
  function ToString(v: Value): string
  {
    match v
    case Null => ""
    case Str(s) => s
    case Arr(_) => "Array"
  }

  /** PHP's (array) cast: null becomes [], a scalar a one-element list. */
  function AsArray(v: Value): seq<Value>
  {
    match v
    case Null => []
    case Str(_) => [v]
    case Arr(items) => items
  }

  /** `strpos(s, prefix) === 0`: the first occurrence of `prefix` is at the start. */
  predicate StartsWith(s: string, prefix: string)
  {
    |prefix| <= |s| && s[..|prefix|] == prefix
  }

  predicate Distinct<T(==)>(xs: seq<T>)
  {
    forall i, j :: 0 <= i < j < |xs| ==> xs[i] != xs[j]
  }

  /** `array_values(array_unique(xs))`: the first occurrence of every element, in order.
      Defined, like PHP's scan, by walking the list from the front and keeping an
      element only when it has not been kept before. */
  function Unique<T(==,!new)>(xs: seq<T>): (r: seq<T>)
    ensures Distinct(r)
    decreases |xs|
  {
    if xs == [] then []
    else
      var init, last := xs[..|xs| - 1], xs[|xs| - 1];
      assert xs == init + [last];
      var kept := Unique(init);
      if last in kept then kept else kept + [last]
  }

  /** Unique keeps exactly the elements of its input. */
  lemma {:induction false} UniqueMembers<T(!new)>(xs: seq<T>)
    ensures forall x :: x in Unique(xs) <==> x in xs
    decreases |xs|
  {
    if xs != [] {
      var init, last := xs[..|xs| - 1], xs[|xs| - 1];
      assert xs == init + [last];
      UniqueMembers(init);
    }
  }

  /** The elements of `b` that do not occur in `a`, in order. */
  function Absent<T(==,!new)>(b: seq<T>, a: seq<T>): (r: seq<T>)
    ensures forall x :: x in r <==> x in b && x !in a
    decreases |b|
  {
    if b == [] then []
    else
      var init, last := b[..|b| - 1], b[|b| - 1];
      assert b == init + [last];
      Absent(init, a) + (if last in a then [] else [last])
  }

  /** The position of the first occurrence of `x` in `xs`, or `|xs|` if there is none. */
  function FirstIndex<T(==)>(xs: seq<T>, x: T): (i: nat)
    ensures i <= |xs| && x !in xs[..i]
    ensures i < |xs| <==> x in xs
    ensures i < |xs| ==> xs[i] == x
  {
    if xs == [] then 0
    else if xs[0] == x then 0
    else
      var j := FirstIndex(xs[1..], x);
      assert xs[..j + 1] == [xs[0]] + xs[1..][..j];
      assert xs == [xs[0]] + xs[1..];
      j + 1
  }

  /** The first occurrence of an element is the same in a prefix that contains it. */
  lemma FirstIndexInPrefix<T(!new)>(xs: seq<T>, m: nat, x: T)
    requires m <= |xs| && x in xs[..m]
    ensures FirstIndex(xs, x) == FirstIndex(xs[..m], x)
  {
    var i, k := FirstIndex(xs, x), FirstIndex(xs[..m], x);
    assert xs[k] == x;
    assert xs[..k] == xs[..m][..k];
    assert forall j | 0 <= j < k :: xs[j] == xs[..k][j];
    assert forall j | 0 <= j < i :: xs[j] == xs[..i][j];
  }

  /** Unique keeps elements in the order of their first occurrences. */
  lemma {:induction false} UniqueKeepsFirstSeenOrder<T(!new)>(xs: seq<T>)
    ensures forall i, j :: 0 <= i < j < |Unique(xs)| ==>
      FirstIndex(xs, Unique(xs)[i]) < FirstIndex(xs, Unique(xs)[j])
    decreases |xs|
  {
    if xs != [] {
      var n := |xs|;
      var init, last := xs[..n - 1], xs[n - 1];
      assert xs == init + [last];
      assert init == xs[..n - 1];
      var kept := Unique(init);
      UniqueMembers(init);
      UniqueKeepsFirstSeenOrder(init);
      forall e | e in kept
        ensures FirstIndex(xs, e) == FirstIndex(init, e) < n - 1
      {
        FirstIndexInPrefix(xs, n - 1, e);
      }
      if last !in kept {
        assert last !in init;
        assert forall j | 0 <= j < n - 1 :: xs[j] == init[j];
        assert FirstIndex(xs, last) == n - 1;
        var r := kept + [last];
        assert Unique(xs) == r;
        forall i, j | 0 <= i < j < |r|
          ensures FirstIndex(xs, r[i]) < FirstIndex(xs, r[j])
        {
          if j < |kept| {
            assert r[i] == kept[i] && r[j] == kept[j];
          } else {
            assert r[i] == kept[i] && r[i] in kept;
          }
        }
      }
    }
  }

  /** A list without repeats is its own Unique; so Unique is idempotent. */
  lemma {:induction false} UniqueOfDistinct<T(!new)>(xs: seq<T>)
    requires Distinct(xs)
    ensures Unique(xs) == xs
    decreases |xs|
  {
    if xs != [] {
      var init, last := xs[..|xs| - 1], xs[|xs| - 1];
      assert xs == init + [last];
      UniqueOfDistinct(init);
      assert last !in init;
    }
  }

  /** Associativity of concatenation, kept apart so that it is proved outside the
      large context of `UniqueAppend`. */
  lemma ConcatAssoc<T>(p: seq<T>, q: seq<T>, r: seq<T>)
    ensures (p + q) + r == p + (q + r)
  {
  }

  /** Unique of a list with one more element at the end. */
  lemma UniqueSnoc<T(!new)>(xs: seq<T>, y: T)
    ensures Unique(xs + [y]) == if y in Unique(xs) then Unique(xs) else Unique(xs) + [y]
  {
    assert (xs + [y])[..|xs|] == xs;
  }

  /** Absent of a list with one more element at the end. */
  lemma AbsentSnoc<T(!new)>(b: seq<T>, y: T, a: seq<T>)
    ensures Absent(b + [y], a) == Absent(b, a) + (if y in a then [] else [y])
  {
    assert (b + [y])[..|b|] == b;
  }

  /** `array_unique(array_merge(a, b))`: the distinct elements of `a`, followed by the
      distinct elements of `b` that do not occur in `a`. */
  lemma {:induction false} UniqueAppend<T(!new)>(a: seq<T>, b: seq<T>)
    ensures Unique(a + b) == Unique(a) + Unique(Absent(b, a))
    decreases |b|
  {
    if b == [] {
      assert a + b == a;
      assert Unique(a) + Unique(Absent(b, a)) == Unique(a) + [];
      assert Unique(a) + [] == Unique(a);
    } else {
      var init, y := b[..|b| - 1], b[|b| - 1];
      assert b == init + [y];
      var rest, k := Absent(init, a), Unique(a + init);
      assert k == Unique(a) + Unique(rest) by {
        UniqueAppend(a, init);
      }
      assert Unique(a + b) == if y in k then k else k + [y] by {
        assert a + b == (a + init) + [y];
        UniqueSnoc(a + init, y);
      }
      assert Absent(b, a) == rest + (if y in a then [] else [y]) by {
        AbsentSnoc(init, y, a);
      }
      assert y in k <==> y in a || y in init by {
        UniqueMembers(a + init);
      }
      if y in a {
        assert rest + [] == rest;
        assert Unique(a + b) == k;
      } else {
        assert Unique(rest + [y]) == if y in Unique(rest) then Unique(rest) else Unique(rest) + [y] by {
          UniqueSnoc(rest, y);
        }
        assert y in Unique(rest) <==> y in init by {
          UniqueMembers(rest);
        }
        if y in init {
          assert Unique(a + b) == k && Unique(rest + [y]) == Unique(rest);
        } else {
          assert Unique(a + b) == k + [y] && Unique(rest + [y]) == Unique(rest) + [y];
          ConcatAssoc(Unique(a), Unique(rest), [y]);
        }
      }
    }
  }

  /** `explode(' ', s)`: the pieces of `s` between single spaces. Consecutive spaces
      give empty pieces and the empty string gives one empty piece. */
  function Explode(s: string): (r: seq<string>)
    ensures |r| >= 1
    ensures forall i :: 0 <= i < |r| ==> ' ' !in r[i]
  {
    if s == [] then [""]
    else
      var rest := Explode(s[1..]);
      if s[0] == ' ' then [""] + rest
      else [[s[0]] + rest[0]] + rest[1..]
  }

  /** `implode(' ', ws)`: the pieces joined with single spaces. */
  function Implode(ws: seq<string>): string
  {
    if ws == [] then ""
    else if |ws| == 1 then ws[0]
    else ws[0] + " " + Implode(ws[1..])
  }

  /** Joining the pieces of a string gives the string back. */
  lemma {:induction false} ImplodeExplode(s: string)
    ensures Implode(Explode(s)) == s
  {
    if s != [] {
      var rest := Explode(s[1..]);
      ImplodeExplode(s[1..]);
      if s[0] == ' ' {
        assert ([""] + rest)[1..] == rest;
      } else {
        var first := [s[0]] + rest[0];
        if |rest| == 1 {
          assert Explode(s) == [first];
        } else {
          assert ([first] + rest[1..])[1..] == rest[1..];
          assert Implode(rest) == rest[0] + " " + Implode(rest[1..]);
        }
      }
    }
  }

  lemma {:induction false} ExplodeWord(w: string)
    requires ' ' !in w
    ensures Explode(w) == [w]
  {
    if w != [] {
      ExplodeWord(w[1..]);
      assert [w[0]] + w[1..] == w;
    }
  }

  lemma {:induction false} ExplodeWordThen(w: string, t: string)
    requires ' ' !in w
    ensures Explode(w + " " + t) == [w] + Explode(t)
  {
    if w == [] {
      assert w + " " + t == " " + t;
      assert (" " + t)[1..] == t;
    } else {
      var s := w + " " + t;
      assert s[0] == w[0] && s[1..] == w[1..] + " " + t;
      ExplodeWordThen(w[1..], t);
      assert [w[0]] + w[1..] == w;
    }
  }

  /** Splitting a join of space-free words gives the words back. */
  lemma {:induction false} ExplodeImplode(ws: seq<string>)
    requires |ws| >= 1
    requires forall i :: 0 <= i < |ws| ==> ' ' !in ws[i]
    ensures Explode(Implode(ws)) == ws
  {
    if |ws| == 1 {
      ExplodeWord(ws[0]);
    } else {
      ExplodeImplode(ws[1..]);
      ExplodeWordThen(ws[0], Implode(ws[1..]));
      assert [ws[0]] + ws[1..] == ws;
    }
  }
}
