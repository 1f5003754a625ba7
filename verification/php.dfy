/**
 * The small part of PHP's runtime semantics the plugin's code leans on:
 * nullable values, objects as property tables with `isset`, the default
 * character set of `trim`, and `str_replace` with a one-character search
 * string.  Strings are sequences of characters; PHP's byte strings are
 * modelled one character per byte.
 */
module Php {

  /** A value that may be PHP's `null`. */
  datatype Option<+T> = None | Some(value: T)

  /**
   * A PHP object seen as its property table: a property is either absent,
   * present and `null` (`None`), or present with a value.
   */
  type Object<V> = map<string, Option<V>>

  /** `isset($o->f)`: the property exists and does not hold `null`. */
  predicate IsSet<V>(o: Object<V>, f: string)
  {
    f in o && o[f].Some?
  }

  /** The characters `trim` strips by default: " \t\n\r\0\x0B". */
  predicate IsTrimSpace(c: char)
  {
    c == ' ' || c == '\t' || c == '\n' || c == '\r' || c == '\0' || c == '\U{000B}'
  }

  predicate AllTrimSpace(s: string)
  {
    forall i :: 0 <= i < |s| ==> IsTrimSpace(s[i])
  }

  /** Index of the first character of `s` at or after `k` that `trim` keeps. */
  function TrimStart(s: string, k: nat): (i: nat)
    requires k <= |s|
    ensures k <= i <= |s|
    ensures forall n :: k <= n < i ==> IsTrimSpace(s[n])
    ensures i == |s| || !IsTrimSpace(s[i])
    decreases |s| - k
  {
    if k < |s| && IsTrimSpace(s[k]) then TrimStart(s, k + 1) else k
  }

  /** Index just past the last character of `s` before `j` (and not before `i`) that `trim` keeps. */
  function TrimEnd(s: string, i: nat, j: nat): (e: nat)
    requires i <= j <= |s|
    ensures i <= e <= j
    ensures forall n :: e <= n < j ==> IsTrimSpace(s[n])
    ensures e == i || !IsTrimSpace(s[e - 1])
    decreases j - i
  {
    if i < j && IsTrimSpace(s[j - 1]) then TrimEnd(s, i, j - 1) else j
  }

  /**
   * `trim($s)`: `s` without its leading and trailing trim characters. The
   * result neither starts nor ends with a trim character, and it is empty
   * exactly when `s` consists of trim characters alone.
   */
  function Trim(s: string): (r: string)
    ensures |r| <= |s|
    ensures r == [] || (!IsTrimSpace(r[0]) && !IsTrimSpace(r[|r| - 1]))
    ensures r == [] <==> AllTrimSpace(s)
  {
    var i := TrimStart(s, 0);
    var j := TrimEnd(s, i, |s|);
    assert j == i ==> AllTrimSpace(s);
    assert j != i ==> !IsTrimSpace(s[i]);
    s[i..j]
  }

  /**
   * `str_replace($c, $rep, $s)` for a one-character search string `c`:
   * every occurrence of `c` becomes `rep`, every other character stays.
   */
  function ReplaceChar(s: string, c: char, rep: string): string
  {
    if s == [] then []
    else (if s[0] == c then rep else [s[0]]) + ReplaceChar(s[1..], c, rep)
  }

  /**
   * After the replacement `c` occurs nowhere unless the replacement text
   * contains it, and a string without `c` is left as it is.
   */
  lemma {:induction false} ReplaceCharSpec(s: string, c: char, rep: string)
    ensures c !in rep ==> c !in ReplaceChar(s, c, rep)
    ensures c !in s ==> ReplaceChar(s, c, rep) == s
    ensures forall x :: x in ReplaceChar(s, c, rep) ==> x in s || x in rep
    decreases |s|
  {
    if s != [] {
      ReplaceCharSpec(s[1..], c, rep);
      assert s == [s[0]] + s[1..];
    }
  }

  /** Replacement acts character by character, so it distributes over concatenation. */
  lemma {:induction false} ReplaceCharConcat(a: string, b: string, c: char, rep: string)
    ensures ReplaceChar(a + b, c, rep) == ReplaceChar(a, c, rep) + ReplaceChar(b, c, rep)
    decreases |a|
  {
    if a == [] {
      assert a + b == b;
    } else {
      assert (a + b)[0] == a[0];
      assert (a + b)[1..] == a[1..] + b;
      ReplaceCharConcat(a[1..], b, c, rep);
    }
  }

  /** Removing a trim character neither creates nor destroys a non-blank character. */
  lemma {:induction false} RemoveTrimSpaceKeepsBlankness(s: string, c: char)
    requires IsTrimSpace(c)
    ensures AllTrimSpace(ReplaceChar(s, c, [])) <==> AllTrimSpace(s)
    decreases |s|
  {
    if s != [] {
      RemoveTrimSpaceKeepsBlankness(s[1..], c);
      var tail := ReplaceChar(s[1..], c, []);
      assert ReplaceChar(s, c, []) == (if s[0] == c then [] else [s[0]]) + tail;
      if AllTrimSpace(s) {
        assert AllTrimSpace(s[1..]) by {
          forall i | 0 <= i < |s[1..]| ensures IsTrimSpace(s[1..][i]) {
            assert s[1..][i] == s[i + 1];
          }
        }
      }
      if AllTrimSpace(ReplaceChar(s, c, [])) {
        assert AllTrimSpace(tail) by {
          var whole := ReplaceChar(s, c, []);
          var k := |whole| - |tail|;
          forall i | 0 <= i < |tail| ensures IsTrimSpace(tail[i]) {
            assert tail[i] == whole[k + i];
          }
        }
        assert IsTrimSpace(s[0]) by {
          if s[0] != c {
            assert ReplaceChar(s, c, [])[0] == s[0];
          }
        }
        assert forall i :: 1 <= i < |s| ==> s[i] == s[1..][i - 1];
      }
    }
  }
}
