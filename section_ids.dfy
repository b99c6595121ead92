/** `SectionId` (assets/global.js): a qualified section id is a section id and a
    section name joined by the separator `__`, e.g. `template--22224696705326__main`. */
module SectionIds {
  import opened Optional
  import opened JsStrings

  const Separator: string := "__"

  /** `SectionId.parseId`: the text before the first separator. */
  function ParseId(qualifiedSectionId: string): string {
    Split(qualifiedSectionId, Separator)[0]
  }

  /** `SectionId.parseSectionName`: the text between the first and the second
      separator, `undefined` (`None`) when there is no separator at all. */
  function ParseSectionName(qualifiedSectionId: string): Option<string> {
    var parts := Split(qualifiedSectionId, Separator);
    if |parts| > 1 then Some(parts[1]) else None
  }

  /** `SectionId.getIdForSection`. */
  function GetIdForSection(sectionId: string, sectionName: string): string {
    sectionId + Separator + sectionName
  }

  /** A section id that the separator search cannot run into: no `__` inside,
      and no trailing `_` that would pair with the separator's first character. */
  predicate IsPlainSectionId(sectionId: string) {
    !Contains(sectionId, Separator) && (sectionId == [] || sectionId[|sectionId| - 1] != '_')
  }

  lemma {:induction false} PlainIdEndsAtSeparator(sectionId: string)
    requires IsPlainSectionId(sectionId)
    ensures EndsAtSeparator(sectionId, Separator)
  {
    var s := sectionId + Separator;
    var n := |sectionId|;
    assert OccursAt(s, Separator, n) by {
      assert s[n..n + 2] == Separator;
    }
    forall i | 0 <= i < n
      ensures !OccursAt(s, Separator, i)
    {
      if i + 2 <= n {
        assert s[i..i + 2] == sectionId[i..i + 2];
        assert !OccursAt(sectionId, Separator, i);
      } else {
        assert s[i..i + 2] == [sectionId[n - 1], '_'];
      }
    }
    IndexOfFirst(s, Separator, n);
  }

  /** `parseId` recovers the section id from `getIdForSection`, whatever the name. */
  lemma {:induction false} ParseIdOfQualified(sectionId: string, sectionName: string)
    requires IsPlainSectionId(sectionId)
    ensures ParseId(GetIdForSection(sectionId, sectionName)) == sectionId
  {
    PlainIdEndsAtSeparator(sectionId);
    IndexOfAfterPiece(sectionId, Separator, sectionName);
    var q := GetIdForSection(sectionId, sectionName);
    assert q[..|sectionId|] == sectionId;
  }

  /** `parseSectionName` recovers the section name from `getIdForSection` when
      the name holds no separator. */
  lemma {:induction false} ParseSectionNameOfQualified(sectionId: string, sectionName: string)
    requires IsPlainSectionId(sectionId) && !Contains(sectionName, Separator)
    ensures ParseSectionName(GetIdForSection(sectionId, sectionName)) == Some(sectionName)
  {
    PlainIdEndsAtSeparator(sectionId);
    SplitJoin([sectionId, sectionName], Separator);
    assert Join([sectionId, sectionName], Separator) == GetIdForSection(sectionId, sectionName) by {
      assert Join([sectionId, sectionName][1..], Separator) == sectionName;
    }
  }

  /** A section id without `__` but ending in `_` is not recovered: the
      separator search stops one character early. */
  lemma TrailingUnderscoreIsNotRecovered()
    ensures !Contains("a_", Separator)
    ensures ParseId(GetIdForSection("a_", "b")) == "a"
    ensures ParseSectionName(GetIdForSection("a_", "b")) == Some("_b")
  {
    var q := GetIdForSection("a_", "b");
    assert q == "a___b";
    assert OccursAt(q, Separator, 1) by { assert q[1..3] == "__"; }
    assert !OccursAt(q, Separator, 0) by { assert q[0..2] == "a_"; }
    IndexOfFirst(q, Separator, 1);
    var rest := q[3..];
    assert rest == "_b";
    assert !Contains(rest, Separator) by {
      assert !OccursAt(rest, Separator, 0) by { assert rest[0..2] == "_b"; }
    }
    assert !Contains("a_", Separator) by {
      assert !OccursAt("a_", Separator, 0) by { assert "a_"[0..2] == "a_"; }
    }
  }

  lemma NoUnderscore(s: string)
    requires '_' !in s
    ensures IsPlainSectionId(s) && !Contains(s, Separator)
  {
    forall i | 0 <= i <= |s| - 2
      ensures !OccursAt(s, Separator, i)
    {
      assert s[i..i + 2] == [s[i], s[i + 1]];
    }
  }

  /** The examples given beside the source's definitions. */
  lemma DocumentedParseExamples(id: string, q: string)
    requires id == "template--22224696705326" && q == id + "__main"
    ensures ParseId(q) == id
    ensures ParseSectionName(q) == Some("main")
  {
    assert q == GetIdForSection(id, "main");
    NoUnderscore(id);
    NoUnderscore("main");
    ParseIdOfQualified(id, "main");
    ParseSectionNameOfQualified(id, "main");
  }
}
