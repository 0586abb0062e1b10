/** The ordering that `strcmp` imposes on hashtags: plain lexicographic order
    on the characters of the two strings, a proper prefix sorting first. */
module Lexicographic {

  /** `a` sorts strictly before `b` in dictionary order, compared one character
      at a time from the front; a string that runs out first sorts first. */
  predicate Less(a: string, b: string) {
    b != [] && (a == [] || a[0] < b[0] || (a[0] == b[0] && Less(a[1..], b[1..])))
  }

  /** The textbook definition of the same order: `a` is a proper prefix of `b`,
      or at the first position where they differ `a` holds the smaller character. */
  ghost predicate LexBefore(a: string, b: string) {
    || (|a| < |b| && a == b[..|a|])
    || exists k :: 0 <= k < |a| && k < |b| && a[..k] == b[..k] && a[k] < b[k]
  }

  /** Every pair in textbook order is in character-by-character order. */
  lemma {:induction false} LexBeforeIsLess(a: string, b: string)
    requires LexBefore(a, b)
    ensures Less(a, b)
  {
    if a != [] && a[0] >= b[0] {
      if |a| < |b| && a == b[..|a|] {
        assert a[0] == b[0];
        assert a[1..] == b[..|a|][1..] == b[1..][..|a[1..]|];
      } else {
        var k :| 0 <= k < |a| && k < |b| && a[..k] == b[..k] && a[k] < b[k];
        assert k != 0;
        assert a[0] == a[..k][0] == b[..k][0] == b[0];
        assert a[1..][..k - 1] == a[1..k] == a[..k][1..];
        assert b[1..][..k - 1] == b[1..k] == b[..k][1..];
        assert a[1..][k - 1] < b[1..][k - 1];
      }
      LexBeforeIsLess(a[1..], b[1..]);
    }
  }

  /** Every pair in character-by-character order is in textbook order. */
  lemma {:induction false} LessImpliesLexBefore(a: string, b: string)
    requires Less(a, b)
    ensures LexBefore(a, b)
  {
    if a == [] {
      assert a == b[..0];
    } else if a[0] < b[0] {
      assert a[..0] == b[..0];
    } else {
      var a', b' := a[1..], b[1..];
      LessImpliesLexBefore(a', b');
      assert a == [a[0]] + a' && b == [b[0]] + b';
      if |a'| < |b'| && a' == b'[..|a'|] {
        assert b[..|a|] == [b[0]] + b'[..|a'|];
      } else {
        var k :| 0 <= k < |a'| && k < |b'| && a'[..k] == b'[..k] && a'[k] < b'[k];
        assert a[..k + 1] == [a[0]] + a'[..k];
        assert b[..k + 1] == [b[0]] + b'[..k];
        assert a[k + 1] < b[k + 1];
      }
    }
  }

  /** The character-by-character order is the textbook one. */
  lemma LessIsLexBefore(a: string, b: string)
    ensures Less(a, b) <==> LexBefore(a, b)
  {
    if LexBefore(a, b) {
      LexBeforeIsLess(a, b);
    }
    if Less(a, b) {
      LessImpliesLexBefore(a, b);
    }
  }

  /** The C library's `strcmp`, of which the C program only ever inspects the sign:
      negative, zero or positive as `a` sorts before, equal to or after `b`. */
  function Strcmp(a: string, b: string): (r: int)
    ensures r < 0 <==> Less(a, b)
    ensures r == 0 <==> a == b
    ensures r > 0 <==> Less(b, a)
  {
    if a == [] && b == [] then 0
    else if a == [] then -1
    else if b == [] then 1
    else if a[0] < b[0] then -1
    else if b[0] < a[0] then 1
    else
      assert a == [a[0]] + a[1..] && b == [b[0]] + b[1..];
      Strcmp(a[1..], b[1..])
  }

  /** `Less` is a strict total order: exactly one of the three relations holds. */
  lemma LessTrichotomy(a: string, b: string)
    ensures Less(a, b) || a == b || Less(b, a)
    ensures !(Less(a, b) && Less(b, a))
    ensures !Less(a, a)
  {
    var r := Strcmp(a, b);
    var s := Strcmp(a, a);
  }

  /** `Less` is transitive. */
  lemma {:induction false} LessTransitive(a: string, b: string, c: string)
    requires Less(a, b) && Less(b, c)
    ensures Less(a, c)
  {
    if a != [] && a[0] == b[0] && b[0] == c[0] {
      LessTransitive(a[1..], b[1..], c[1..]);
    }
  }
}
