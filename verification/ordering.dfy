/** Rust's `Ordering` and the orders `#[derive(Ord)]` builds from it: integers
    by value, and sequences (strings, byte strings, vectors) lexicographically,
    a proper prefix coming first. */
module Ordering {

  datatype Ordering = Less | Equal | Greater {
    /** `Ordering::reverse`. */
    function Reverse(): Ordering {
      match this
      case Less => Greater
      case Equal => Equal
      case Greater => Less
    }
  }

  /** `Ord::cmp` on integers. */
  function CmpInt(a: int, b: int): Ordering {
    if a < b then Less else if a == b then Equal else Greater
  }

  /** `code` tells elements apart: equal codes mean equal elements. */
  ghost predicate Injective<T(!new)>(code: T -> int) {
    forall x: T, y: T :: code(x) == code(y) ==> x == y
  }

  /** Lexicographic comparison of two sequences whose elements are ordered by
      their integer `code`: the first differing position decides, and a
      sequence that runs out first is smaller. */
  function Lex<T>(a: seq<T>, b: seq<T>, code: T -> int): Ordering
    decreases |a|
  {
    if |a| == 0 then (if |b| == 0 then Equal else Less)
    else if |b| == 0 then Greater
    else if code(a[0]) != code(b[0]) then CmpInt(code(a[0]), code(b[0]))
    else Lex(a[1..], b[1..], code)
  }

  function CharCode(c: char): int {
    c as int
  }

  /** `Ord` for `String`: Rust compares the UTF-8 bytes, which orders strings
      exactly as comparing their chars by code point does. */
  function CmpStr(a: string, b: string): Ordering {
    Lex(a, b, CharCode)
  }

  /** `a` sorts strictly before `b`. */
  predicate StrLess(a: string, b: string) {
    CmpStr(a, b) == Less
  }

  /** Only equal sequences compare `Equal`. */
  lemma {:induction false} LexEqual<T(!new)>(a: seq<T>, b: seq<T>, code: T -> int)
    requires Injective(code)
    ensures Lex(a, b, code) == Equal <==> a == b
    decreases |a|
  {
    if |a| > 0 && |b| > 0 && code(a[0]) == code(b[0]) {
      LexEqual(a[1..], b[1..], code);
      assert a == [a[0]] + a[1..] && b == [b[0]] + b[1..];
    }
  }

  /** Swapping the operands reverses the outcome. */
  lemma {:induction false} LexReverse<T>(a: seq<T>, b: seq<T>, code: T -> int)
    ensures Lex(b, a, code) == Lex(a, b, code).Reverse()
    decreases |a|
  {
    if |a| > 0 && |b| > 0 && code(a[0]) == code(b[0]) {
      LexReverse(a[1..], b[1..], code);
    }
  }

  /** `Less` is transitive. */
  lemma {:induction false} LexTransitive<T>(a: seq<T>, b: seq<T>, c: seq<T>, code: T -> int)
    requires Lex(a, b, code) == Less && Lex(b, c, code) == Less
    ensures Lex(a, c, code) == Less
    decreases |a|
  {
    if |a| > 0 && |b| > 0 && |c| > 0 && code(a[0]) == code(b[0]) && code(b[0]) == code(c[0]) {
      LexTransitive(a[1..], b[1..], c[1..], code);
    }
  }

  lemma CharCodeInjective()
    ensures Injective(CharCode)
  {
  }

  /** Two strings are equal, or one sorts strictly before the other. */
  lemma StrTrichotomy(a: string, b: string)
    ensures a == b || StrLess(a, b) || StrLess(b, a)
    ensures !(StrLess(a, b) && StrLess(b, a))
    ensures !StrLess(a, a)
  {
    CharCodeInjective();
    LexEqual(a, b, CharCode);
    LexReverse(a, b, CharCode);
    LexEqual(a, a, CharCode);
  }

  lemma StrLessTransitive(a: string, b: string, c: string)
    requires StrLess(a, b) && StrLess(b, c)
    ensures StrLess(a, c)
  {
    LexTransitive(a, b, c, CharCode);
  }
}
