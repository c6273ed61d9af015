// Bytewise string order and sort.Strings.
module Lex {

  predicate Less(a: string, b: string) {
    b != "" && (a == "" || a[0] < b[0] || (a[0] == b[0] && Less(a[1..], b[1..])))
  }

  predicate Sorted(s: seq<string>) {
    forall i, j | 0 <= i < j < |s| :: Less(s[i], s[j])
  }

  function Elements(s: seq<string>): set<string> {
    set x | x in s
  }

  lemma InElements(x: string, s: seq<string>)
    ensures x in s <==> x in Elements(s)
  {
  }

  lemma {:induction false} Irreflexive(a: string)
    ensures !Less(a, a)
  {
    if a != "" {
      Irreflexive(a[1..]);
    }
  }

  lemma {:induction false} Transitive(a: string, b: string, c: string)
    requires Less(a, b) && Less(b, c)
    ensures Less(a, c)
  {
    if a != "" && a[0] == b[0] == c[0] {
      Transitive(a[1..], b[1..], c[1..]);
    }
  }

  lemma {:induction false} Total(a: string, b: string)
    ensures Less(a, b) || a == b || Less(b, a)
  {
    if a != "" && b != "" && a[0] == b[0] {
      Total(a[1..], b[1..]);
      assert a == [a[0]] + a[1..] && b == [b[0]] + b[1..];
    }
  }

  lemma Asymmetric(a: string, b: string)
    requires Less(a, b)
    ensures !Less(b, a) && a != b
  {
  }

  function Insert(x: string, s: seq<string>): (r: seq<string>)
    ensures |r| == |s| + 1
    ensures forall e :: e in r <==> e == x || e in s
  {
    if s == [] then [x]
    else if Less(x, s[0]) then [x] + s
    else
      assert forall e :: e in s <==> e == s[0] || e in s[1..];
      [s[0]] + Insert(x, s[1..])
  }

  lemma {:induction false} InsertSorts(x: string, s: seq<string>)
    requires Sorted(s) && x !in s
    ensures Sorted(Insert(x, s))
  {
    if s == [] {
    } else if Less(x, s[0]) {
      forall j | 0 <= j < |s| ensures Less(x, s[j]) {
        if j > 0 {
          Transitive(x, s[0], s[j]);
        }
      }
    } else {
      Total(x, s[0]);
      InsertSorts(x, s[1..]);
      var t := Insert(x, s[1..]);
      forall j | 0 <= j < |t| ensures Less(s[0], t[j]) {
        assert t[j] in t;
      }
    }
  }

  /** The one strictly increasing listing of a finite set of strings. */
  ghost function SortedOf(names: set<string>): (s: seq<string>)
    ensures Sorted(s) && |s| == |names|
    ensures Elements(s) == names
  {
    if names == {} then []
    else
      var x :| x in names;
      var rest := SortedOf(names - {x});
      assert x !in rest by { InElements(x, rest); }
      InsertSorts(x, rest);
      assert forall e :: e in Insert(x, rest) <==> e in names by {
        assert forall e :: e in rest <==> e in Elements(rest);
      }
      Insert(x, rest)
  }

  lemma {:induction false} SortedUnique(s: seq<string>, t: seq<string>)
    requires Sorted(s) && Sorted(t) && Elements(s) == Elements(t)
    ensures s == t
  {
    if s == [] {
      HeadInElements(t);
    } else {
      assert s[0] in Elements(s);
      assert t != [];
      assert t[0] in Elements(t);
      HeadIsLeast(s, t);
      HeadIsLeast(t, s);
      Total(s[0], t[0]);
      TailElements(s);
      TailElements(t);
      SortedUnique(s[1..], t[1..]);
      assert s == [s[0]] + s[1..] && t == [t[0]] + t[1..];
    }
  }

  lemma HeadInElements(s: seq<string>)
    ensures s != [] ==> s[0] in Elements(s)
  {
  }

  lemma HeadIsLeast(s: seq<string>, t: seq<string>)
    requires Sorted(s) && s != [] && t != [] && t[0] in s
    ensures !Less(t[0], s[0])
  {
    var i :| 0 <= i < |s| && s[i] == t[0];
    Irreflexive(s[0]);
    if i > 0 {
      Asymmetric(s[0], s[i]);
    }
  }

  lemma TailElements(s: seq<string>)
    requires Sorted(s) && s != []
    ensures Elements(s[1..]) == Elements(s) - {s[0]}
  {
    Irreflexive(s[0]);
    assert forall i | 0 < i < |s| :: Less(s[0], s[i]);
    assert forall x | x in s :: x == s[0] || x in s[1..];
  }

  /** sort.Strings over names read in an arbitrary order. */
  method Sort(names: set<string>) returns (s: seq<string>)
    ensures s == SortedOf(names)
  {
    s := [];
    var rest := names;
    while rest != {}
      invariant rest <= names && Sorted(s) && Elements(s) == names - rest
      decreases rest
    {
      var x :| x in rest;
      assert x !in s by { InElements(x, s); }
      InsertSorts(x, s);
      assert forall e :: e in s <==> e in Elements(s);
      s := Insert(x, s);
      rest := rest - {x};
      assert forall e :: e in s <==> e in names && e !in rest;
    }
    SortedUnique(s, SortedOf(names));
  }
}
