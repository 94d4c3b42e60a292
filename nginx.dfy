/**
 * The pseudo-static nginx configuration step of agent.js: the planner's
 * reply is normalized, checked by `isValidNginxPseudoStatic`, and replaced by
 * `defaultNginxPseudoStatic` when the check fails.
 */
module Nginx {
  import opened Text

  const LocationKeyword := "location"

  /** `normalizeNginxConfig`: the reply with surrounding white space removed. */
  function NormalizeNginxConfig(configText: string): (r: string)
    ensures IsTrimmed(r)
  {
    Trim(configText)
  }

  /** Some `}` occurs at or after index `from`: the tail `[\s\S]*\}` of the pattern. */
  predicate ClosesAfter(s: string, from: nat) {
    exists e :: from <= e < |s| && s[e] == '}'
  }

  /** The pattern `location\s+\/\s*\{[\s\S]*\}` matches at index `i`. The
      white-space runs are skipped greedily, which is exact because the
      characters after them, `/` and `{`, are not white space. */
  predicate BlockAt(s: string, i: nat) {
    i + |LocationKeyword| < |s| && s[i..i + |LocationKeyword|] == LocationKeyword &&
    IsSpace(s[i + |LocationKeyword|]) &&
    var j := SkipSpaces(s, i + |LocationKeyword|);
    j < |s| && s[j] == '/' &&
    var k := SkipSpaces(s, j + 1);
    k < |s| && s[k] == '{' && ClosesAfter(s, k + 1)
  }

  /** `/location\s+\/\s*\{[\s\S]*\}/.test(s)`: a match anywhere in `s`. */
  predicate HasLocationBlock(s: string) {
    exists i :: 0 <= i < |s| && BlockAt(s, i)
  }

  /** `/[;]\s*$/.test(t)`: the last character that is not white space is `;`. */
  predicate EndsWithSemicolon(t: string) {
    var k := SkipSpacesBack(t, 0, |t|);
    k > 0 && t[k - 1] == ';'
  }

  /** `isValidNginxPseudoStatic`: non-empty after normalization, holds a
      `location /` block, and ends with `;`. */
  predicate IsValidNginxPseudoStatic(configText: string) {
    var normalized := NormalizeNginxConfig(configText);
    normalized != "" && HasLocationBlock(normalized) && EndsWithSemicolon(TrimEnd(normalized))
  }

  /** `defaultNginxPseudoStatic`: the single-page-application fallback. */
  function DefaultNginxPseudoStatic(): string {
    DefaultOpening + "\n" + "    try_files $uri /index.html;" + "\n" + "}"
  }

  const DefaultOpening := "location / {"

  /** The configuration `main` writes for the planner's reply: the normalized
      reply when the reply is valid, the default otherwise. */
  function SelectPseudoStatic(reply: string): (config: string)
    ensures IsValidNginxPseudoStatic(reply) ==> config == NormalizeNginxConfig(reply)
    ensures !IsValidNginxPseudoStatic(reply) ==> config == DefaultNginxPseudoStatic()
  {
    var normalized := NormalizeNginxConfig(reply);
    ValidityOfNormalized(reply);
    if IsValidNginxPseudoStatic(normalized) then normalized else DefaultNginxPseudoStatic()
  }

  /** The pattern written out position by position: `location` at `i`, white
      space up to the `/` at `j`, white space up to the `{` at `k`, and a `}`
      at `e` after it. */
  ghost predicate BlockShape(s: string, i: int, j: int, k: int, e: int) {
    0 <= i && i + |LocationKeyword| < j < k < e < |s| &&
    s[i..i + |LocationKeyword|] == LocationKeyword &&
    (forall t :: i + |LocationKeyword| <= t < j ==> IsSpace(s[t])) && s[j] == '/' &&
    (forall t :: j < t < k ==> IsSpace(s[t])) && s[k] == '{' && s[e] == '}'
  }

  /** The scanning check agrees with the pattern written out by positions. */
  lemma LocationBlockIff(s: string)
    ensures HasLocationBlock(s) <==> exists i, j, k, e :: BlockShape(s, i, j, k, e)
  {
    if HasLocationBlock(s) {
      var i :| 0 <= i < |s| && BlockAt(s, i);
      var j := SkipSpaces(s, i + |LocationKeyword|);
      var k := SkipSpaces(s, j + 1);
      var e :| k + 1 <= e < |s| && s[e] == '}';
      assert BlockShape(s, i, j, k, e);
    }
    if exists i, j, k, e :: BlockShape(s, i, j, k, e) {
      var i, j, k, e :| BlockShape(s, i, j, k, e);
      ShapeIsBlock(s, i, j, k, e);
    }
  }

  lemma ShapeIsBlock(s: string, i: nat, j: nat, k: nat, e: nat)
    requires BlockShape(s, i, j, k, e)
    ensures BlockAt(s, i)
  {
    SkipSpacesOver(s, i + |LocationKeyword|, j);
    SkipSpacesOver(s, j + 1, k);
    assert ClosesAfter(s, k + 1) by { assert k + 1 <= e < |s| && s[e] == '}'; }
  }

  /** The semicolon check agrees with "some `;` followed only by white space". */
  lemma EndsWithSemicolonIff(t: string)
    ensures EndsWithSemicolon(t) <==>
            exists p :: 0 <= p < |t| && t[p] == ';' && forall q :: p < q < |t| ==> IsSpace(t[q])
  {
    var k := SkipSpacesBack(t, 0, |t|);
    if exists p :: 0 <= p < |t| && t[p] == ';' && forall q :: p < q < |t| ==> IsSpace(t[q]) {
      var p :| 0 <= p < |t| && t[p] == ';' && forall q :: p < q < |t| ==> IsSpace(t[q]);
      SkipSpacesBackOver(t, 0, p + 1, |t|);
    }
    if EndsWithSemicolon(t) {
      assert 0 <= k - 1 < |t| && t[k - 1] == ';';
    }
  }

  /** Validity depends only on the normalized text, so checking the
      normalized reply a second time changes nothing. */
  lemma ValidityOfNormalized(configText: string)
    ensures IsValidNginxPseudoStatic(NormalizeNginxConfig(configText)) == IsValidNginxPseudoStatic(configText)
  {
    TrimOfTrimmed(NormalizeNginxConfig(configText));
  }

  /** Every accepted configuration, after normalization, ends in `;`. */
  lemma ValidEndsWithSemicolon(configText: string)
    requires IsValidNginxPseudoStatic(configText)
    ensures var n := NormalizeNginxConfig(configText);
            n != "" && n[|n| - 1] == ';'
  {
    var n := NormalizeNginxConfig(configText);
    TrimEndOfTrimmed(n);
    SkipSpacesBackOver(n, 0, |n|, |n|);
  }

  /** A configuration whose last character is the `}` closing its block is
      always rejected, however well formed it is. */
  lemma ClosingBraceRejected(configText: string)
    requires var n := NormalizeNginxConfig(configText); n != "" && n[|n| - 1] == '}'
    ensures !IsValidNginxPseudoStatic(configText)
  {
    if IsValidNginxPseudoStatic(configText) {
      ValidEndsWithSemicolon(configText);
    }
  }

  /** The default holds the `location /` block ... */
  lemma DefaultHasBlock()
    ensures HasLocationBlock(DefaultNginxPseudoStatic())
  {
    var d := DefaultNginxPseudoStatic();
    var h := DefaultOpening;
    var t := "\n" + "    try_files $uri /index.html;" + "\n" + "}";
    assert d == h + t;
    assert d[|d| - 1] == '}';
    assert h == LocationKeyword + " / {";
    assert d[0..|LocationKeyword|] == LocationKeyword by {
      assert d[0..|LocationKeyword|] == h[0..|LocationKeyword|];
    }
    assert d[8] == ' ' && d[9] == '/' && d[10] == ' ' && d[11] == '{' by {
      assert d[8] == h[8] && d[9] == h[9] && d[10] == h[10] && d[11] == h[11];
    }
    assert BlockShape(d, 0, 9, 11, |d| - 1);
    ShapeIsBlock(d, 0, 9, 11, |d| - 1);
  }

  /** ... yet the validator rejects it: its last character is `}`. */
  lemma DefaultRejected()
    ensures !IsValidNginxPseudoStatic(DefaultNginxPseudoStatic())
  {
    var d := DefaultNginxPseudoStatic();
    assert d == DefaultOpening + ("\n" + "    try_files $uri /index.html;" + "\n" + "}");
    assert d[0] == DefaultOpening[0] == 'l';
    assert d[|d| - 1] == '}';
    TrimOfTrimmed(d);
    ClosingBraceRejected(d);
  }

  /** The written configuration is valid exactly when the reply was, since the
      fallback is not; an accepted reply is written normalized. */
  lemma SelectionValidIff(reply: string)
    ensures IsValidNginxPseudoStatic(SelectPseudoStatic(reply)) <==> IsValidNginxPseudoStatic(reply)
    ensures IsValidNginxPseudoStatic(reply) ==> SelectPseudoStatic(reply) == NormalizeNginxConfig(reply)
  {
    ValidityOfNormalized(reply);
    DefaultRejected();
  }

  /** An empty or blank reply falls back to the default. */
  lemma BlankReplyFallsBack(reply: string)
    requires AllSpace(reply)
    ensures SelectPseudoStatic(reply) == DefaultNginxPseudoStatic()
  {
    TrimEmpty(reply);
    TrimEmpty([]);
  }
}
