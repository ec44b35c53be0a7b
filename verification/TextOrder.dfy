/** The order on identifiers, time stamps and keys: a strict dictionary order on strings. */
module TextOrder {
  import opened Ordering

  predicate TextLe(a: string, b: string) {
    if a == [] then true
    else if b == [] then false
    else if a[0] != b[0] then a[0] < b[0]
    else TextLe(a[1..], b[1..])
  }

  lemma {:induction false} TextLeTotal(a: string, b: string)
    ensures TextLe(a, b) || TextLe(b, a)
    ensures TextLe(a, b) && TextLe(b, a) ==> a == b
  {
    if a != [] && b != [] && a[0] == b[0] {
      TextLeTotal(a[1..], b[1..]);
      assert a == [a[0]] + a[1..] && b == [b[0]] + b[1..];
    }
  }

  lemma {:induction false} TextLeTransitive(a: string, b: string, c: string)
    requires TextLe(a, b) && TextLe(b, c)
    ensures TextLe(a, c)
  {
    if a != [] && b != [] && c != [] && a[0] == b[0] == c[0] {
      TextLeTransitive(a[1..], b[1..], c[1..]);
    }
  }

  lemma TextLeIsTotalOrder()
    ensures TotalPreorder(TextLe)
    ensures forall a, b :: TextLe(a, b) && TextLe(b, a) ==> a == b
  {
    forall a, b
      ensures TextLe(a, b) || TextLe(b, a)
      ensures TextLe(a, b) && TextLe(b, a) ==> a == b
    {
      TextLeTotal(a, b);
    }
    forall a, b, c | TextLe(a, b) && TextLe(b, c)
      ensures TextLe(a, c)
    {
      TextLeTransitive(a, b, c);
    }
  }

  /** `a` begins like `b` up to a place at which its character comes first. */
  ghost predicate FirstDiffersBelow(a: string, b: string, i: nat) {
    i < |a| && i < |b| && a[..i] == b[..i] && a[i] < b[i]
  }

  /** As in a dictionary: a text comes no later than those it begins, and the first difference decides. */
  lemma {:induction false} DictionaryOrder(a: string, b: string)
    ensures TextLe(a, b) <==> a <= b || exists i: nat :: FirstDiffersBelow(a, b, i)
  {
    if a != [] && b != [] {
      if a[0] == b[0] {
        DictionaryOrder(a[1..], b[1..]);
        if i: nat :| FirstDiffersBelow(a[1..], b[1..], i) {
          assert a[..i + 1] == [a[0]] + a[1..][..i] && b[..i + 1] == [b[0]] + b[1..][..i];
          assert FirstDiffersBelow(a, b, i + 1);
        }
        if i: nat :| FirstDiffersBelow(a, b, i) {
          assert i > 0;
          assert a[1..][..i - 1] == a[..i][1..] && b[1..][..i - 1] == b[..i][1..];
          assert FirstDiffersBelow(a[1..], b[1..], i - 1);
        }
        assert a <= b <==> a[1..] <= b[1..];
      } else {
        if a[0] < b[0] {
          assert FirstDiffersBelow(a, b, 0);
        }
        if i: nat :| FirstDiffersBelow(a, b, i) {
          assert i == 0 || a[..i][0] == b[..i][0];
        }
      }
    }
  }
}
