/** Strings compared code point by code point, as Python's `<` and SQLite's BINARY collation do. */
module Text {

  predicate Less(a: string, b: string)
  {
    && b != ""
    && (|| a == ""
        || a[0] < b[0]
        || (a[0] == b[0] && Less(a[1..], b[1..])))
  }

  /** The characters `str.strip` removes. */
  predicate IsSpace(c: char)
  {
    || '\t' <= c <= '\r' || '\U{1C}' <= c <= ' ' || c == '\U{85}' || c == '\U{A0}' || c == '\U{1680}'
    || '\U{2000}' <= c <= '\U{200A}' || c == '\U{2028}' || c == '\U{2029}' || c == '\U{202F}'
    || c == '\U{205F}' || c == '\U{3000}'
  }

  /** Nothing is left of the text after `strip`. */
  predicate Blank(s: string) { forall i :: 0 <= i < |s| ==> IsSpace(s[i]) }

  lemma {:induction false} LessIrreflexive(a: string)
    ensures !Less(a, a)
  {
    if a != "" {
      LessIrreflexive(a[1..]);
    }
  }

  lemma {:induction false} LessTransitive(a: string, b: string, c: string)
    requires Less(a, b) && Less(b, c)
    ensures Less(a, c)
  {
    if a != "" && a[0] == b[0] == c[0] {
      LessTransitive(a[1..], b[1..], c[1..]);
    }
  }

  lemma {:induction false} LessTotal(a: string, b: string)
    ensures a == b || Less(a, b) || Less(b, a)
  {
    if a != "" && b != "" && a[0] == b[0] {
      LessTotal(a[1..], b[1..]);
      assert a == [a[0]] + a[1..] && b == [b[0]] + b[1..];
    }
  }

  /** The order depends only on what follows a common prefix. */
  lemma {:induction false} LessAfterPrefix(p: string, a: string, b: string)
    ensures Less(p + a, p + b) <==> Less(a, b)
  {
    if p == "" {
      assert p + a == a && p + b == b;
    } else {
      LessAfterPrefix(p[1..], a, b);
      assert (p + a)[1..] == p[1..] + a && (p + b)[1..] == p[1..] + b;
    }
  }
}
