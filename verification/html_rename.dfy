/**
 * The attribute rewriting of `rename_in_html`: the value of a `class`
 * attribute is split on whitespace and every class renamed, the value of an
 * `id` attribute is stripped and renamed, and the target of an `href="#..."`
 * is renamed as it stands. Locating the attributes in the page is left to the
 * regexes of the source.
 */
module HtmlRename {
  import opened Whitespace
  import opened ShortNames
  import opened RenameMaps

  /** Every replacement name is a non-empty word without whitespace. */
  ghost predicate WordValued(m: map<string, string>) {
    forall c :: c in m ==> |m[c]| > 0 && NoSpace(m[c])
  }

  /** `class_map.get(c, c) for c in classes`. */
  function RenameWords(ws: seq<string>, m: map<string, string>): (r: seq<string>)
    ensures |r| == |ws|
    ensures forall i :: 0 <= i < |ws| ==> r[i] == Rename(m, ws[i])
  {
    if ws == [] then [] else [Rename(m, ws[0])] + RenameWords(ws[1..], m)
  }

  /** `replace_class_attr` on the attribute value. */
  function RenameClassValue(value: string, m: map<string, string>): string {
    JoinWords(RenameWords(Split(value), m))
  }

  /** `replace_id_attr` on the attribute value. */
  function RenameIdValue(value: string, m: map<string, string>): string {
    Rename(m, Strip(value))
  }

  /** `replace_href_hash` on what follows the `#`. */
  function RenameHrefValue(value: string, m: map<string, string>): string {
    Rename(m, value)
  }

  lemma RenameWordsAreWords(ws: seq<string>, m: map<string, string>)
    requires AreWords(ws) && WordValued(m)
    ensures AreWords(RenameWords(ws, m))
  {
  }

  /** Renaming keeps the classes of an attribute: as many, in the same order, each renamed. */
  lemma RenameClassTokens(value: string, m: map<string, string>)
    requires WordValued(m)
    ensures Split(RenameClassValue(value, m)) == RenameWords(Split(value), m)
    ensures |Split(RenameClassValue(value, m))| == |Split(value)|
  {
    RenameWordsAreWords(Split(value), m);
    SplitJoinWords(RenameWords(Split(value), m));
  }

  lemma LetterNotSpace(c: char)
    requires IsLetter(c)
    ensures !IsSpace(c)
  {
  }

  /** The maps of `process` rename into letters only. */
  lemma RenameMapWordValued(names: seq<string>, offset: nat, taken: set<string>)
    ensures WordValued(RenameMap(names, offset, taken))
  {
    var m := RenameMap(names, offset, taken);
    forall c | c in m
      ensures |m[c]| > 0 && NoSpace(m[c])
    {
      var k := RenameMapIndex(names, offset, taken, c);
      var v := m[c];
      forall i | 0 <= i < |v|
        ensures !IsSpace(v[i])
      {
        LetterNotSpace(v[i]);
      }
    }
  }

  /** With the corrected map, two `id` attributes naming different ids stay different. */
  lemma RenameIdValueApart(ids: seq<string>, offset: nat, a: string, b: string)
    requires Distinct(ids) && Strip(a) in ids && Strip(b) in ids
    ensures var m := RenameMap(ids, offset, Names(ids));
      RenameIdValue(a, m) == RenameIdValue(b, m) <==> Strip(a) == Strip(b)
  {
    RenameMapRenamesApart(ids, offset, Strip(a), Strip(b));
  }

  /** A link `href="#x"` follows the element `id="x"` it points to. */
  lemma HrefFollowsId(x: string, m: map<string, string>)
    requires x == [] || (!IsSpace(x[0]) && !IsSpace(x[|x| - 1]))
    ensures RenameHrefValue(x, m) == RenameIdValue(x, m)
  {
    StripTrimmed(x);
  }
}
