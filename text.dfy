/** Small string and option helpers shared by the cart and the voice-command models. */
module Text {

  datatype Option<+T> = None | Some(value: T)

  /** `sub` occurs in `s` starting at offset `i`. */
  predicate OccursAt(s: string, sub: string, i: int)
  {
    0 <= i && i + |sub| <= |s| && s[i..i + |sub|] == sub
  }

  /**
   * C#'s `string.Contains(string)`: an ordinal substring test, here over Unicode scalar values.
   * It agrees with C#'s UTF-16 code-unit test for keywords without surrogate pairs, such as
   * "Page" and the dispatcher's CJK keywords.
   */
  predicate Contains(s: string, sub: string): (b: bool)
    ensures b ==> |sub| <= |s|
    ensures sub == [] ==> b
    ensures sub == s ==> b
  {
    assert sub == [] || sub == s ==> OccursAt(s, sub, 0);
    exists i | 0 <= i <= |s| - |sub| :: OccursAt(s, sub, i)
  }

  /** Every character of an occurrence is the matching character of `s`. */
  lemma OccurrenceChar(s: string, sub: string, i: int, j: int)
    requires OccursAt(s, sub, i) && 0 <= j < |sub|
    ensures s[i + j] == sub[j]
  {
    assert s[i..i + |sub|][j] == sub[j];
  }

  /** A non-empty word can only occur in a string that holds its first character. */
  lemma ContainsFirstChar(s: string, sub: string)
    requires |sub| > 0 && Contains(s, sub)
    ensures sub[0] in s
  {
    var i :| 0 <= i <= |s| - |sub| && OccursAt(s, sub, i);
    OccurrenceChar(s, sub, i, 0);
  }

  /** A prefix that never holds the first character of `sub` cannot take part in an occurrence. */
  lemma ContainsDropPrefix(d: string, r: string, sub: string)
    requires |sub| > 0 && sub[0] !in d
    ensures Contains(d + r, sub) <==> Contains(r, sub)
  {
    var s := d + r;
    if Contains(s, sub) {
      var i :| 0 <= i <= |s| - |sub| && OccursAt(s, sub, i);
      OccurrenceChar(s, sub, i, 0);
      if i < |d| {
        assert false;
      }
      assert s[i..i + |sub|] == r[i - |d|..i - |d| + |sub|];
      assert OccursAt(r, sub, i - |d|);
    }
    if Contains(r, sub) {
      var i :| 0 <= i <= |r| - |sub| && OccursAt(r, sub, i);
      assert s[|d| + i..|d| + i + |sub|] == r[i..i + |sub|];
      assert OccursAt(s, sub, |d| + i);
    }
  }

  /** A suffix that never holds the last character of `sub` cannot take part in an occurrence. */
  lemma ContainsDropSuffix(r: string, e: string, sub: string)
    requires |sub| > 0 && sub[|sub| - 1] !in e
    ensures Contains(r + e, sub) <==> Contains(r, sub)
  {
    var s := r + e;
    if Contains(s, sub) {
      var i :| 0 <= i <= |s| - |sub| && OccursAt(s, sub, i);
      OccurrenceChar(s, sub, i, |sub| - 1);
      if i + |sub| > |r| {
        assert false;
      }
      assert s[i..i + |sub|] == r[i..i + |sub|];
      assert OccursAt(r, sub, i);
    }
    if Contains(r, sub) {
      var i :| 0 <= i <= |r| - |sub| && OccursAt(r, sub, i);
      assert s[i..i + |sub|] == r[i..i + |sub|];
      assert OccursAt(s, sub, i);
    }
  }
}
