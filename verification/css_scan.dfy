/**
 * The hex-colour filter of `find_css_classes_and_ids`: a `#name` found in
 * the style sheet is taken for a colour, not an id, when it consists of 3 to
 * 8 hexadecimal digits and has length 3, 4, 6 or 8.
 */
module CssScan {

  predicate IsHexDigit(c: char) {
    '0' <= c <= '9' || 'a' <= c <= 'f' || 'A' <= c <= 'F'
  }

  predicate AllHex(s: string) {
    forall i :: 0 <= i < |s| ==> IsHexDigit(s[i])
  }

  /**
   * `re.match(r'^[0-9a-fA-F]{3,8}$', name)`; Python's `$` also matches just
   * before a final newline.
   */
  predicate HexPattern(name: string) {
    var core := if |name| > 0 && name[|name| - 1] == '\n' then name[..|name| - 1] else name;
    3 <= |core| <= 8 && AllHex(core)
  }

  /** The test under which a name is skipped. */
  predicate LooksLikeHexColor(name: string) {
    HexPattern(name) && (|name| == 3 || |name| == 4 || |name| == 6 || |name| == 8)
  }

  /** The ids the loop adds, in the order they are found. */
  function KeepIds(names: seq<string>): (ids: seq<string>)
    ensures |ids| <= |names|
    ensures forall x :: x in ids <==> x in names && !LooksLikeHexColor(x)
  {
    if names == [] then []
    else (if LooksLikeHexColor(names[0]) then [] else [names[0]]) + KeepIds(names[1..])
  }

  /**
   * For a name that does not end in a newline (the selector pattern
   * `#(-?[a-zA-Z_][\w-]*)` never captures one) the test is exactly "3, 4, 6
   * or 8 hexadecimal digits": such a name never becomes an id, and every
   * other name does.
   */
  lemma KeepIdsExact(names: seq<string>, x: string)
    requires x in names
    requires x == [] || x[|x| - 1] != '\n'
    ensures x in KeepIds(names) <==> !(AllHex(x) && (|x| == 3 || |x| == 4 || |x| == 6 || |x| == 8))
  {
  }

  /** Python's `$`: a name of three hex digits and a newline is dropped too. */
  lemma NewlineAfterHex()
    ensures LooksLikeHexColor("abc\n") && !AllHex("abc\n")
  {
    assert "abc\n"[..3] == "abc";
  }
}
