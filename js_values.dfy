/**
 * The small part of JavaScript's value semantics that the task store relies on:
 * the kinds of value an argument can have, truthiness (`!x`) and
 * `String.prototype.trim`.
 */
module JsValues {

  /** A JavaScript value, reduced to what the store's checks look at. */
  datatype JsValue =
    | Undefined
    | Null
    | Bool(b: bool)
    | Num(x: real)    // a finite number
    | NaN             // the number NaN: falsy
    | Str(s: string)
    | Obj             // any object, array or function: truthy, and has no `trim` method

  /** `!!v`: false exactly for undefined, null, false, 0, NaN and the empty string. */
  predicate Truthy(v: JsValue) {
    match v
    case Undefined => false
    case Null => false
    case Bool(b) => b
    case Num(x) => x != 0.0
    case NaN => false
    case Str(s) => s != ""
    case Obj => true
  }

  /**
   * The characters `trim` strips: ECMAScript's WhiteSpace (tab, vertical tab,
   * form feed, zero-width no-break space and every Unicode "Zs" space) and
   * LineTerminator (line feed, carriage return, line and paragraph separator).
   */
  predicate IsWhiteSpace(c: char) {
    || c == '\t' || c == '\n' || c == '\U{000B}' || c == '\U{000C}' || c == '\r'
    || c == ' ' || c == '\U{00A0}' || c == '\U{1680}'
    || ('\U{2000}' <= c <= '\U{200A}')
    || c == '\U{2028}' || c == '\U{2029}' || c == '\U{202F}' || c == '\U{205F}'
    || c == '\U{3000}' || c == '\U{FEFF}'
  }

  /** True of the empty string and of every string made only of white space. */
  predicate AllWhiteSpace(s: string) {
    forall i :: 0 <= i < |s| ==> IsWhiteSpace(s[i])
  }

  /** Drops the leading white space: what is left is a suffix that starts with a non-space. */
  function TrimStart(s: string): (r: string)
    ensures |r| <= |s| && r == s[|s| - |r|..]
    ensures forall i :: 0 <= i < |s| - |r| ==> IsWhiteSpace(s[i])
    ensures r != [] ==> !IsWhiteSpace(r[0])
  {
    if s != [] && IsWhiteSpace(s[0]) then TrimStart(s[1..]) else s
  }

  /** Drops the trailing white space: what is left is a prefix that ends with a non-space. */
  function TrimEnd(s: string): (r: string)
    ensures |r| <= |s| && r == s[..|r|]
    ensures forall i :: |r| <= i < |s| ==> IsWhiteSpace(s[i])
    ensures r != [] ==> !IsWhiteSpace(r[|r| - 1])
  {
    if s != [] && IsWhiteSpace(s[|s| - 1]) then TrimEnd(s[..|s| - 1]) else s
  }

  /** `s.trim()`: empty exactly for blank strings, otherwise bounded by non-spaces. */
  function Trim(s: string): (r: string)
    ensures |r| <= |s|
    ensures r == [] <==> AllWhiteSpace(s)
    ensures r != [] ==> !IsWhiteSpace(r[0]) && !IsWhiteSpace(r[|r| - 1])
  {
    var t := TrimStart(s);
    assert t == [] ==> AllWhiteSpace(s);
    TrimEnd(t)
  }

  /** Leading white space in front of a string that starts with a non-space is all `TrimStart` drops. */
  lemma {:induction false} TrimStartSkips(ws: string, x: string)
    requires AllWhiteSpace(ws)
    requires x == [] || !IsWhiteSpace(x[0])
    ensures TrimStart(ws + x) == x
  {
    if ws != [] {
      assert (ws + x)[1..] == ws[1..] + x;
      TrimStartSkips(ws[1..], x);
    } else {
      assert ws + x == x;
    }
  }

  /** Trailing white space behind a string that ends with a non-space is all `TrimEnd` drops. */
  lemma {:induction false} TrimEndSkips(x: string, ws: string)
    requires AllWhiteSpace(ws)
    requires x == [] || !IsWhiteSpace(x[|x| - 1])
    ensures TrimEnd(x + ws) == x
  {
    if ws != [] {
      var n := |ws| - 1;
      assert (x + ws)[..|x + ws| - 1] == x + ws[..n];
      TrimEndSkips(x, ws[..n]);
    } else {
      assert x + ws == x;
    }
  }

  /**
   * An independent description of `trim`: surrounding a string that is empty or
   * bounded by non-spaces with any white space, then trimming, gives it back.
   */
  lemma TrimStripsPadding(before: string, core: string, after: string)
    requires AllWhiteSpace(before) && AllWhiteSpace(after)
    requires core == [] || (!IsWhiteSpace(core[0]) && !IsWhiteSpace(core[|core| - 1]))
    ensures Trim(before + core + after) == core
  {
    var s := before + core + after;
    if core == [] {
      assert AllWhiteSpace(s);
    } else {
      assert s == before + (core + after);
      TrimStartSkips(before, core + after);
      TrimEndSkips(core, after);
    }
  }

  /** Trimming a trimmed string changes nothing. */
  lemma TrimIdempotent(s: string)
    ensures Trim(Trim(s)) == Trim(s)
  {
    var r := Trim(s);
    TrimStripsPadding([], r, []);
    assert [] + r + [] == r;
  }
}
