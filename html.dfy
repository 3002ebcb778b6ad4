/** The HTML-to-text cleaner of the Moodle extractor
    (`MoodleExtractor._clean_html`): a fixed pipeline of regular-expression
    substitutions and literal replacements, each modelled here as a scanner
    that walks the string left to right exactly as Python's `re.sub` and
    `str.replace` do. */
module Html {
  import opened Wrappers
  import opened Text

  /** Why decoding a numeric entity raises: `chr` refuses code points above
      U+10FFFF, and `int()` refuses a decimal numeral of more than 4300
      digits (Python's default limit on string conversions outside the
      power-of-two bases). */
  datatype HtmlError =
    | CodePointOutOfRange(codePoint: nat)
    | TooManyDigits(digits: nat)

  const MaxCodePoint: nat := 0x10FFFF

  const MaxDecimalDigits: nat := 4300

  /** The error is one Python actually raises. */
  predicate IsRejection(e: HtmlError) {
    match e
    case CodePointOutOfRange(v) => v > MaxCodePoint
    case TooManyDigits(d) => d > MaxDecimalDigits
  }

  /** `c` matches the pattern character `p` under `re.IGNORECASE` with a
      `str` pattern, for the characters of `script` and `style`: the ASCII
      case pair, and the Unicode case equivalents Python's `sre` adds for
      `i` (U+0130, U+0131) and `s` (U+017F). */
  predicate FoldEq(c: char, p: char) {
    || c == p
    || ('a' <= p <= 'z' && c as int == p as int - 32)
    || (p == 'i' && (c == '\U{130}' || c == '\U{131}'))
    || (p == 's' && c == '\U{17F}')
  }

  /** `s` begins with `p`, compared with `FoldEq`. */
  predicate FoldPrefix(s: string, p: string) {
    |p| <= |s| && forall i | 0 <= i < |p| :: FoldEq(s[i], p[i])
  }

  /** The first index at or after `from` that holds `c`. */
  function FindChar(s: string, c: char, from: nat): (r: Option<nat>)
    ensures r.Some? ==> from <= r.value < |s| && s[r.value] == c
    ensures r.Some? ==> forall k | from <= k < r.value :: s[k] != c
    ensures r.None? ==> forall k | from <= k < |s| :: s[k] != c
    decreases |s| - from
  {
    if from >= |s| then None
    else if s[from] == c then Some(from)
    else FindChar(s, c, from + 1)
  }

  /** The first index at or after `from` where `p` begins, compared with
      `FoldEq` (for a `p` without letters this is an exact search). */
  function FindFold(s: string, p: string, from: nat): (r: Option<nat>)
    ensures r.Some? ==> from <= r.value && r.value + |p| <= |s| && FoldPrefix(s[r.value..], p)
    decreases |s| - from
  {
    if from + |p| > |s| then None
    else if FoldPrefix(s[from..], p) then Some(from)
    else FindFold(s, p, from + 1)
  }

  /** The index `FindFold` returns is the first match: `p` begins at no
      earlier index from `from` on. */
  lemma {:induction false} FindFoldFirst(s: string, p: string, from: nat, k: nat)
    requires FindFold(s, p, from).Some? && from <= k < FindFold(s, p, from).value
    ensures !FoldPrefix(s[k..], p)
    decreases |s| - from
  {
    if k > from {
      FindFoldFirst(s, p, from + 1, k);
    }
  }

  /** The patterns `_clean_html` deletes:
      `<script[^>]*>.*?</script>` and `<style[^>]*>.*?</style>` (DOTALL,
      IGNORECASE), `<!--.*?-->` (DOTALL) and `<[^>]+>`. */
  datatype Pattern = Block(tag: string) | Comment | Tag

  /** The length of the match of `p` at the start of `s`, if any. */
  function MatchAt(p: Pattern, s: string): (n: Option<nat>)
    ensures n.Some? ==> 0 < n.value <= |s| && s[0] == '<'
  {
    match p
    case Block(tag) =>
      // `[^>]*>` runs to the first '>', then `.*?` to the first closing tag.
      if FoldPrefix(s, "<" + tag) then
        match FindChar(s, '>', |tag| + 1)
        case None => None
        case Some(j) =>
          match FindFold(s, "</" + tag + ">", j + 1)
          case None => None
          case Some(k) => Some(k + |tag| + 3)
      else None
    case Comment =>
      if StartsWith(s, "<!--") then
        match FindFold(s, "-->", 4)
        case None => None
        case Some(k) => Some(k + 3)
      else None
    case Tag =>
      // `[^>]+` runs to the first '>' and must take at least one character.
      if |s| > 0 && s[0] == '<' then
        match FindChar(s, '>', 1)
        case None => None
        case Some(j) => if j >= 2 then Some(j + 1) else None
      else None
  }

  /** `re.sub(p, '', s)`: at each position a match is deleted whole and the
      scan resumes after it; otherwise one character is kept. */
  function Remove(p: Pattern, s: string): (r: string)
    ensures |r| <= |s|
    decreases |s|
  {
    if s == [] then []
    else match MatchAt(p, s)
      case Some(n) => Remove(p, s[n..])
      case None => [s[0]] + Remove(p, s[1..])
  }

  /** Deletion only drops characters. */
  lemma {:induction false} RemoveKeepsOnlyInput(p: Pattern, s: string)
    ensures forall c | c in Remove(p, s) :: c in s
    decreases |s|
  {
    if s != [] {
      match MatchAt(p, s)
      case Some(n) =>
        RemoveKeepsOnlyInput(p, s[n..]);
        assert forall c | c in s[n..] :: c in s;
      case None =>
        RemoveKeepsOnlyInput(p, s[1..]);
        assert forall c | c in s[1..] :: c in s;
    }
  }

  /** Without a '<' no pattern matches anywhere, so nothing is deleted. */
  lemma {:induction false} RemoveWithoutLt(p: Pattern, s: string)
    requires '<' !in s
    ensures Remove(p, s) == s
    decreases |s|
  {
    if s != [] {
      assert s[0] in s;
      assert forall c | c in s[1..] :: c in s;
      RemoveWithoutLt(p, s[1..]);
    }
  }

  /** No tag `<` + one or more non-'>' characters + `>` starts anywhere. */
  predicate NoTag(s: string) {
    forall i | 0 <= i < |s| :: MatchAt(Tag, s[i..]).None?
  }

  /** After the tag-removal pass no tag remains. */
  lemma {:induction false} RemoveTagsLeavesNoTag(s: string)
    ensures NoTag(Remove(Tag, s))
    decreases |s|
  {
    if s != [] {
      match MatchAt(Tag, s)
      case Some(n) =>
        RemoveTagsLeavesNoTag(s[n..]);
      case None =>
        var rest := Remove(Tag, s[1..]);
        var r := [s[0]] + rest;
        RemoveTagsLeavesNoTag(s[1..]);
        RemoveKeepsOnlyInput(Tag, s[1..]);
        forall i | 1 <= i < |r| ensures MatchAt(Tag, r[i..]).None? {
          assert r[i..] == rest[i - 1..];
        }
        if s[0] == '<' {
          match FindChar(s, '>', 1)
          case None =>
            assert '>' !in rest;
            assert forall k | 1 <= k < |r| :: r[k] == rest[k - 1];
            assert FindChar(r, '>', 1).None?;
          case Some(j) =>
            assert j == 1 && s[1] == '>';
            assert MatchAt(Tag, s[1..]).None?;
            assert rest == [s[1]] + Remove(Tag, s[2..]);
            assert r[1] == '>';
            assert FindChar(r, '>', 1) == Some(1);
        }
        assert MatchAt(Tag, r[0..]).None?;
    }
  }

  /** Tag removal changes nothing in text that holds no tag. */
  lemma {:induction false} RemoveTagsOfTagFree(s: string)
    requires NoTag(s)
    ensures Remove(Tag, s) == s
    decreases |s|
  {
    if s != [] {
      assert s[0..] == s;
      assert NoTag(s[1..]) by {
        forall i | 0 <= i < |s[1..]| ensures MatchAt(Tag, s[1..][i..]).None? {
          assert s[1..][i..] == s[i + 1..];
        }
      }
      RemoveTagsOfTagFree(s[1..]);
    }
  }

  /** The tag-removal pass is idempotent. */
  lemma RemoveTagsIdempotent(s: string)
    ensures Remove(Tag, Remove(Tag, s)) == Remove(Tag, s)
  {
    RemoveTagsLeavesNoTag(s);
    RemoveTagsOfTagFree(Remove(Tag, s));
  }

  /** A character other than '<' is kept and the scan moves on. */
  lemma RemoveKeepsNonLt(p: Pattern, s: string)
    requires s != [] && s[0] != '<'
    ensures Remove(p, s) == [s[0]] + Remove(p, s[1..])
  {
    assert MatchAt(p, s).None?;
  }

  /** Text before the first '<' is kept as it is. */
  lemma {:induction false} RemoveAfterPlain(p: Pattern, a: string, t: string)
    requires '<' !in a
    ensures Remove(p, a + t) == a + Remove(p, t)
  {
    if a == [] {
      assert a + t == t;
    } else {
      var s := a + t;
      assert s[0] == a[0] && s[1..] == a[1..] + t;
      RemoveKeepsNonLt(p, s);
      RemoveAfterPlain(p, a[1..], t);
      PrependRest(a, Remove(p, t));
    }
  }

  /** Putting back the head of a non-empty text. */
  lemma PrependRest(a: string, r: string)
    requires a != []
    ensures [a[0]] + (a[1..] + r) == a + r
  {
    assert a == [a[0]] + a[1..];
  }

  /** A tag `<x>` is deleted whole and the scan resumes right after it. */
  lemma RemoveTagAtStart(x: string, b: string)
    requires x != [] && '>' !in x
    ensures Remove(Tag, "<" + x + ">" + b) == Remove(Tag, b)
  {
    var s := "<" + x + ">" + b;
    assert s[|x| + 1] == '>';
    forall k | 1 <= k < |x| + 1 ensures s[k] != '>' {
      assert s[k] == x[k - 1];
    }
    assert FindChar(s, '>', 1) == Some(|x| + 1);
    assert MatchAt(Tag, s) == Some(|x| + 2);
    assert s[|x| + 2..] == b;
  }

  /** Deleting the tags drops a tag and keeps the text around it. */
  lemma RemoveTagKeepsSurroundings(a: string, x: string, b: string)
    requires '<' !in a && x != [] && '>' !in x
    ensures Remove(Tag, a + "<" + x + ">" + b) == a + Remove(Tag, b)
  {
    assert a + "<" + x + ">" + b == a + ("<" + x + ">" + b);
    RemoveAfterPlain(Tag, a, "<" + x + ">" + b);
    RemoveTagAtStart(x, b);
  }

  /** A closing tag cannot be found where there is no '<'. */
  lemma {:induction false} FindFoldWithoutLt(s: string, p: string, from: nat)
    requires p != [] && p[0] == '<'
    requires forall k | from <= k < |s| :: s[k] != '<'
    ensures FindFold(s, p, from).None?
    decreases |s| - from
  {
    if from + |p| <= |s| {
      assert s[from..][0] == s[from];
      FindFoldWithoutLt(s, p, from + 1);
    }
  }

  /** With its only '<' at the start, text passes the script, style and
      comment deletions unchanged, unless it opens a comment. */
  lemma RemoveBlockOfLoneLt(p: Pattern, t: string)
    requires p.Block? || (p.Comment? && !StartsWith(t, "<!--"))
    requires t != [] && '<' !in t[1..]
    ensures Remove(p, t) == t
  {
    forall k | 1 <= k < |t| ensures t[k] != '<' {
      assert t[k] == t[1..][k - 1];
    }
    if p.Block? {
      var closing := "</" + p.tag + ">";
      if FoldPrefix(t, "<" + p.tag) {
        match FindChar(t, '>', |p.tag| + 1)
        case Some(j) => FindFoldWithoutLt(t, closing, j + 1);
        case None =>
      }
    }
    assert MatchAt(p, t).None?;
    RemoveWithoutLt(p, t[1..]);
    assert t == [t[0]] + t[1..];
  }

  /** `<x>` with `x` not starting "!--" does not open a comment. */
  lemma TagNotComment(x: string, b: string)
    requires '>' !in x && !StartsWith(x, "!--")
    ensures !StartsWith("<" + x + ">" + b, "<!--")
  {
    var t := "<" + x + ">" + b;
    if |t| >= 4 {
      if |x| >= 3 {
        assert t[1..4] == x[..3];
        assert t[..4][1..4] == t[1..4];
      } else {
        assert t[|x| + 1] == '>';
        assert t[..4][|x| + 1] == '>';
      }
    }
  }

  /** The literal entity replacements, in the order they are applied. */
  const NamedEntities: seq<(string, string)> := [
    ("&nbsp;", " "), ("&lt;", "<"), ("&gt;", ">"), ("&amp;", "&"),
    ("&quot;", "\""), ("&#39;", "'"), ("&apos;", "'"), ("&mdash;", "\U{2014}"),
    ("&ndash;", "\U{2013}"), ("&hellip;", "..."), ("&copy;", "\U{A9}"),
    ("&reg;", "\U{AE}"), ("&trade;", "\U{2122}")
  ]

  /** Every replaced entity starts with '&'. */
  predicate AmpersandPatterns(table: seq<(string, string)>) {
    forall i | 0 <= i < |table| :: table[i].0 != [] && table[i].0[0] == '&'
  }

  lemma NamedEntitiesStartWithAmpersand()
    ensures AmpersandPatterns(NamedEntities)
  {
  }

  /** Apply `str.replace` for each pair of the table, in order. */
  function ReplaceEach(s: string, table: seq<(string, string)>): (r: string)
    requires AmpersandPatterns(table)
    ensures (forall i | 0 <= i < |table| :: |table[i].1| <= |table[i].0|) ==> |r| <= |s|
    decreases |table|
  {
    if table == [] then s else ReplaceEach(Replace(s, table[0].0, table[0].1), table[1..])
  }

  /** Every named entity is replaced by text no longer than itself, so the
      named-entity step never lengthens the text. */
  lemma NamedEntitiesShorten(s: string)
    ensures AmpersandPatterns(NamedEntities)
    ensures |ReplaceEach(s, NamedEntities)| <= |s|
  {
    NamedEntitiesStartWithAmpersand();
    forall i | 0 <= i < |NamedEntities| ensures |NamedEntities[i].1| <= |NamedEntities[i].0| {
      EntityTextShort(i);
    }
  }

  /** Without an '&' the entity replacements change nothing. */
  lemma {:induction false} ReplaceEachWithoutAmpersand(s: string, table: seq<(string, string)>)
    requires AmpersandPatterns(table) && '&' !in s
    ensures ReplaceEach(s, table) == s
    decreases |table|
  {
    if table != [] {
      FirstCharAbsent(s, table[0].0);
      ReplaceAbsent(s, table[0].0, table[0].1);
      ReplaceEachWithoutAmpersand(s, table[1..]);
    }
  }

  /** An entity of the table: '&', a name without '&', '<' or ';', and
      ';'. */
  predicate EntityShaped(p: string) {
    && |p| >= 2 && p[0] == '&' && p[|p| - 1] == ';'
    && (forall m | 1 <= m < |p| - 1 :: p[m] != ';' && p[m] != '&' && p[m] != '<')
  }

  lemma EntityShape(i: nat)
    requires i < |NamedEntities|
    ensures EntityShaped(NamedEntities[i].0)
  {
  }

  lemma EntitiesDistinct(j: nat, k: nat)
    requires j < k < |NamedEntities|
    ensures NamedEntities[j].0 != NamedEntities[k].0
  {
  }

  /** Only "&amp;" gives back an '&'. */
  lemma EntityTextPlain(k: nat)
    requires k < |NamedEntities| && k != NamedAmp
    ensures '&' !in NamedEntities[k].1
  {
  }

  /** No entity's text is longer than the entity. */
  lemma EntityTextShort(k: nat)
    requires k < |NamedEntities|
    ensures |NamedEntities[k].1| <= |NamedEntities[k].0|
  {
  }

  /** The index of "&amp;" in the table. */
  const NamedAmp: nat := 3

  lemma NamedAmpEntry()
    ensures NamedAmp < |NamedEntities| && NamedEntities[NamedAmp] == ("&amp;", "&")
  {
  }

  /** Every suffix of the table is a table of '&' patterns. */
  lemma NamedEntitiesFrom(i: nat)
    requires i <= |NamedEntities|
    ensures AmpersandPatterns(NamedEntities[i..])
  {
    NamedEntitiesStartWithAmpersand();
    assert forall m | 0 <= m < |NamedEntities| - i :: NamedEntities[i..][m] == NamedEntities[i + m];
  }

  /** Shaped entities hold no '&' after the first character and no '<'. */
  lemma ShapedPlain(p: string)
    requires EntityShaped(p)
    ensures '&' !in p[1..] && '<' !in p
  {
    forall m | 0 <= m < |p| - 1 ensures p[1..][m] != '&' {
      assert p[1..][m] == p[m + 1];
    }
  }

  /** No shaped entity begins a different one, whatever follows it. */
  lemma ShapedPrefixFree(pj: string, pk: string, b: string)
    requires EntityShaped(pj) && EntityShaped(pk) && pj != pk
    ensures !StartsWith(pk + b, pj)
  {
    var s := pk + b;
    if |pj| < |pk| {
      assert s[..|pj|][|pj| - 1] == pk[|pj| - 1];
    } else if |pj| == |pk| {
      assert s[..|pj|] == pk;
    } else if |pj| <= |s| {
      assert s[..|pj|][|pk| - 1] == pk[|pk| - 1];
    }
  }

  /** Text before the first '&' is kept by a replacement of an entity. */
  lemma {:induction false} ReplaceAfterPlain(a: string, t: string, pat: string, rep: string)
    requires pat != [] && pat[0] == '&' && '&' !in a
    ensures Replace(a + t, pat, rep) == a + Replace(t, pat, rep)
  {
    if a == [] {
      assert a + t == t;
    } else {
      var s := a + t;
      assert s[0] == a[0] && s[1..] == a[1..] + t;
      if |s| < |pat| {
        assert Replace(t, pat, rep) == t;
      } else {
        assert s[..|pat|][0] != pat[0];
        assert Replace(s, pat, rep) == [a[0]] + Replace(a[1..] + t, pat, rep);
        ReplaceAfterPlain(a[1..], t, pat, rep);
        PrependRest(a, Replace(t, pat, rep));
      }
    }
  }

  /** An entity `e` at the start, the only '&' in sight, is left alone by
      the replacement of any entity it does not start with. */
  lemma ReplaceOther(e: string, b: string, pat: string, rep: string)
    requires pat != [] && pat[0] == '&' && e != [] && '&' !in e[1..] && '&' !in b
    requires !StartsWith(e + b, pat)
    ensures Replace(e + b, pat, rep) == e + b
  {
    var s := e + b;
    var rest := s[1..];
    assert rest == e[1..] + b;
    assert '&' !in rest;
    FirstCharAbsent(rest, pat);
    ReplaceAbsent(rest, pat, rep);
    assert s == [s[0]] + rest;
  }

  /** An entity at the start is replaced by the replacement of that entity. */
  lemma ReplaceSame(e: string, b: string, rep: string)
    requires e != [] && e[0] == '&' && '&' !in b
    ensures Replace(e + b, e, rep) == rep + b
  {
    var s := e + b;
    assert s[..|e|] == e && s[|e|..] == b;
    FirstCharAbsent(b, e);
    ReplaceAbsent(b, e, rep);
  }

  /** The table from entry `i` on applies that entry, then the rest. */
  lemma NamedEntryStep(s: string, i: nat)
    requires i < |NamedEntities|
    ensures AmpersandPatterns(NamedEntities[i..]) && AmpersandPatterns(NamedEntities[i + 1..])
    ensures ReplaceEach(s, NamedEntities[i..])
      == ReplaceEach(Replace(s, NamedEntities[i].0, NamedEntities[i].1), NamedEntities[i + 1..])
  {
    NamedEntitiesFrom(i);
    NamedEntitiesFrom(i + 1);
    assert NamedEntities[i..][0] == NamedEntities[i];
    assert NamedEntities[i..][1..] == NamedEntities[i + 1..];
  }

  /** Up to and including its own entry, the table replaces the entity in
      `a + e + b` by its text and changes nothing else. */
  lemma {:induction false} ReplaceEachUpTo(a: string, b: string, k: nat, i: nat)
    requires i <= k < |NamedEntities| && '&' !in a && '&' !in b
    ensures AmpersandPatterns(NamedEntities[i..]) && AmpersandPatterns(NamedEntities[k + 1..])
    ensures ReplaceEach(a + NamedEntities[k].0 + b, NamedEntities[i..])
      == ReplaceEach(a + NamedEntities[k].1 + b, NamedEntities[k + 1..])
    decreases k - i
  {
    NamedEntitiesFrom(k + 1);
    NamedEntryStep(a + NamedEntities[k].0 + b, i);
    if i == k {
      ReplaceOwnEntry(a, b, k);
    } else {
      ReplaceOtherEntry(a, b, k, i);
      ReplaceEachUpTo(a, b, k, i + 1);
    }
  }

  /** The entry of an entity replaces it by its text. */
  lemma ReplaceOwnEntry(a: string, b: string, k: nat)
    requires k < |NamedEntities| && '&' !in a && '&' !in b
    ensures Replace(a + NamedEntities[k].0 + b, NamedEntities[k].0, NamedEntities[k].1)
      == a + NamedEntities[k].1 + b
  {
    var (e, rep) := NamedEntities[k];
    EntityShape(k);
    assert a + e + b == a + (e + b);
    ReplaceAfterPlain(a, e + b, e, rep);
    ReplaceSame(e, b, rep);
    assert a + (rep + b) == a + rep + b;
  }

  /** The entry of any other entity leaves the text alone. */
  lemma ReplaceOtherEntry(a: string, b: string, k: nat, i: nat)
    requires i < k < |NamedEntities| && '&' !in a && '&' !in b
    ensures Replace(a + NamedEntities[k].0 + b, NamedEntities[i].0, NamedEntities[i].1)
      == a + NamedEntities[k].0 + b
  {
    var (p, rep) := NamedEntities[i];
    var e := NamedEntities[k].0;
    EntityShape(i);
    EntityShape(k);
    ShapedPlain(e);
    EntitiesDistinct(i, k);
    ShapedPrefixFree(p, e, b);
    assert a + e + b == a + (e + b);
    ReplaceAfterPlain(a, e + b, p, rep);
    ReplaceOther(e, b, p, rep);
  }

  /** A lone '&' followed by text without ';' is never the start of an
      entity, so the rest of the table leaves it alone. */
  lemma {:induction false} ReplaceEachLoneAmpersand(a: string, b: string, i: nat)
    requires i <= |NamedEntities| && '&' !in a && '&' !in b && ';' !in b
    ensures AmpersandPatterns(NamedEntities[i..])
    ensures ReplaceEach(a + "&" + b, NamedEntities[i..]) == a + "&" + b
    decreases |NamedEntities| - i
  {
    NamedEntitiesFrom(i);
    if i < |NamedEntities| {
      NamedEntryStep(a + "&" + b, i);
      ReplaceLoneAmpersandEntry(a, b, i);
      ReplaceEachLoneAmpersand(a, b, i + 1);
    } else {
      assert NamedEntities[i..] == [];
    }
  }

  /** One entry of the table leaves a lone '&' alone. */
  lemma ReplaceLoneAmpersandEntry(a: string, b: string, i: nat)
    requires i < |NamedEntities| && '&' !in a && '&' !in b && ';' !in b
    ensures Replace(a + "&" + b, NamedEntities[i].0, NamedEntities[i].1) == a + "&" + b
  {
    var (p, rep) := NamedEntities[i];
    EntityShape(i);
    assert a + "&" + b == a + ("&" + b);
    ReplaceAfterPlain(a, "&" + b, p, rep);
    if |p| <= 1 + |b| {
      assert ("&" + b)[..|p|][|p| - 1] == b[|p| - 2];
    }
    ReplaceOther("&", b, p, rep);
  }

  /** The literal replacements turn one entity into its text and keep the
      text around it; after "&amp;" the text must hold no ';', since
      otherwise the '&' it gives back can start a later entity
      ("&amp;quot;" becomes '"'). */
  lemma ReplaceEachNamed(a: string, b: string, k: nat)
    requires k < |NamedEntities| && '&' !in a && '&' !in b
    requires k == NamedAmp ==> ';' !in b
    ensures AmpersandPatterns(NamedEntities)
    ensures ReplaceEach(a + NamedEntities[k].0 + b, NamedEntities) == a + NamedEntities[k].1 + b
  {
    NamedEntitiesStartWithAmpersand();
    assert NamedEntities[0..] == NamedEntities;
    ReplaceEachUpTo(a, b, k, 0);
    if k == NamedAmp {
      NamedAmpEntry();
      ReplaceEachLoneAmpersand(a, b, k + 1);
    } else {
      EntityTextPlain(k);
      ReplaceEachWithoutAmpersand(a + NamedEntities[k].1 + b, NamedEntities[k + 1..]);
    }
  }

  /** `[0-9]` (decimal) or `[0-9a-fA-F]` (hexadecimal). */
  predicate IsNumeral(c: char, hex: bool) {
    IsDigit(c) || (hex && (('a' <= c <= 'f') || ('A' <= c <= 'F')))
  }

  function NumeralValue(c: char, hex: bool): nat
    requires IsNumeral(c, hex)
  {
    if IsDigit(c) then c as int - '0' as int
    else if 'a' <= c <= 'f' then c as int - 'a' as int + 10
    else c as int - 'A' as int + 10
  }

  /** `int(text)` or `int(text, 16)` of a run of numerals. */
  function NumeralsValue(s: string, hex: bool): nat
    requires forall i | 0 <= i < |s| :: IsNumeral(s[i], hex)
  {
    if s == [] then 0
    else NumeralsValue(s[..|s| - 1], hex) * (if hex then 16 else 10) + NumeralValue(s[|s| - 1], hex)
  }

  /** The end of the run of numerals that starts at `i`. */
  function NumeralsEnd(s: string, i: nat, hex: bool): (j: nat)
    requires i <= |s|
    ensures i <= j <= |s| && (j == |s| || !IsNumeral(s[j], hex))
    ensures forall k | i <= k < j :: IsNumeral(s[k], hex)
    decreases |s| - i
  {
    if i < |s| && IsNumeral(s[i], hex) then NumeralsEnd(s, i + 1, hex) else i
  }

  /** The match of `&#(\d+);` (or `&#x([0-9a-fA-F]+);`) at the start of `s`:
      its length and the number it denotes. The greedy run of numerals must be
      followed by ';'. */
  function MatchNumeric(s: string, hex: bool): (m: Option<(nat, nat)>)
    ensures m.Some? ==> (if hex then 5 else 4) <= m.value.0 <= |s| && s[0] == '&'
    ensures m.Some? ==> forall k | 1 <= k < m.value.0 :: s[k] != '&'
  {
    var prefix := if hex then "&#x" else "&#";
    if StartsWith(s, prefix) then
      var j := NumeralsEnd(s, |prefix|, hex);
      if j > |prefix| && j < |s| && s[j] == ';' then
        assert s[..|prefix|] == prefix;
        assert forall k | 1 <= k < |prefix| :: s[k] == prefix[k];
        Some((j + 1, NumeralsValue(s[|prefix|..j], hex)))
      else None
    else None
  }

  /** Python's `chr(v)`; a lone surrogate, which Python would keep, becomes
      U+FFFD because a Dafny `char` cannot hold one. */
  function Chr(v: nat): (r: Result<char, HtmlError>)
    ensures r.Failure? <==> v > MaxCodePoint
    ensures r.Success? && !(0xD800 <= v <= 0xDFFF) ==> r.value as int == v
  {
    if v > MaxCodePoint then Failure(CodePointOutOfRange(v))
    else if 0xD800 <= v <= 0xDFFF then Success('\U{FFFD}')
    else Success(v as char)
  }

  /** The character the replacement function gives for the entity matched
      at the start of `s`: `int()` of its numeral, which for a decimal
      numeral raises beyond 4300 digits, then `chr`. The numeral's length is
      the match's length less "&#" (or "&#x") and ";". */
  function EntityChar(s: string, hex: bool): (r: Result<char, HtmlError>)
    requires MatchNumeric(s, hex).Some?
    ensures var (n, v) := MatchNumeric(s, hex).value;
      r.Failure? <==> (!hex && n - 3 > MaxDecimalDigits) || v > MaxCodePoint
    ensures r.Failure? ==> IsRejection(r.error)
    ensures r.Success? && !(0xD800 <= MatchNumeric(s, hex).value.1 <= 0xDFFF) ==>
      r.value as int == MatchNumeric(s, hex).value.1
  {
    var (n, v) := MatchNumeric(s, hex).value;
    if !hex && n - 3 > MaxDecimalDigits then Failure(TooManyDigits(n - 3)) else Chr(v)
  }

  /** `re.sub(r'&#(\d+);', lambda m: chr(int(m.group(1))), s)` and its
      hexadecimal twin: the first match whose replacement raises aborts the
      whole substitution. */
  function DecodeNumeric(s: string, hex: bool): (r: Result<string, HtmlError>)
    ensures r.Failure? ==> IsRejection(r.error)
    ensures r.Success? ==> |r.value| <= |s|
    decreases |s|
  {
    if s == [] then Success([])
    else match MatchNumeric(s, hex)
      case Some((n, v)) =>
        var c :- EntityChar(s, hex);
        var rest :- DecodeNumeric(s[n..], hex);
        Success([c] + rest)
      case None =>
        var rest :- DecodeNumeric(s[1..], hex);
        Success([s[0]] + rest)
  }

  /** A numeric entity whose replacement raises starts at index `i`. */
  predicate BadEntityAt(s: string, hex: bool, i: int) {
    0 <= i < |s| && MatchNumeric(s[i..], hex).Some? && EntityChar(s[i..], hex).Failure?
  }

  /** ... and it is the first one in `s`. */
  predicate FirstBadEntity(s: string, hex: bool, i: int) {
    BadEntityAt(s, hex, i) && forall k | 0 <= k < i :: !BadEntityAt(s, hex, k)
  }

  /** A bad entity after a match of length `n` at the start of `s` is one
      of the rest: no match starts inside another. */
  lemma BadEntityAfterMatch(s: string, hex: bool, n: nat)
    requires MatchNumeric(s, hex).Some? && n == MatchNumeric(s, hex).value.0
    ensures (exists i :: BadEntityAt(s, hex, i)) <==>
            BadEntityAt(s, hex, 0) || exists i :: BadEntityAt(s[n..], hex, i)
  {
    forall i | BadEntityAt(s, hex, i) && i > 0 ensures BadEntityAt(s[n..], hex, i - n) {
      assert s[i..][0] == s[i];
      assert s[i..] == s[n..][i - n..];
    }
    forall i | BadEntityAt(s[n..], hex, i) ensures BadEntityAt(s, hex, i + n) {
      assert s[n..][i..] == s[i + n..];
    }
  }

  /** Without a match at the start, the bad entities are those of the tail. */
  lemma BadEntityAfterChar(s: string, hex: bool)
    requires s != [] && MatchNumeric(s, hex).None?
    ensures (exists i :: BadEntityAt(s, hex, i)) <==> exists i :: BadEntityAt(s[1..], hex, i)
  {
    assert s[0..] == s;
    forall i | BadEntityAt(s, hex, i) ensures BadEntityAt(s[1..], hex, i - 1) {
      assert s[1..][i - 1..] == s[i..];
    }
    forall i | BadEntityAt(s[1..], hex, i) ensures BadEntityAt(s, hex, i + 1) {
      assert s[1..][i..] == s[i + 1..];
    }
  }

  /** The first bad entity after an accepted match of length `n` at the
      start of `s` is the first bad entity of `s`. */
  lemma FirstBadAfterMatch(s: string, hex: bool, n: nat, i: int)
    requires MatchNumeric(s, hex).Some? && n == MatchNumeric(s, hex).value.0
    requires EntityChar(s, hex).Success?
    requires FirstBadEntity(s[n..], hex, i)
    ensures FirstBadEntity(s, hex, i + n)
  {
    assert s[n..][i..] == s[i + n..];
    forall k | 0 <= k < i + n ensures !BadEntityAt(s, hex, k) {
      if k == 0 {
        assert s[0..] == s;
      } else if k < n {
        assert s[k..][0] == s[k] != '&';
        assert MatchNumeric(s[k..], hex).None?;
      } else if k < |s| {
        assert s[k..] == s[n..][k - n..];
        assert !BadEntityAt(s[n..], hex, k - n);
      }
    }
  }

  /** The first bad entity after a character no entity starts at is the
      first bad entity of `s`. */
  lemma FirstBadAfterChar(s: string, hex: bool, i: int)
    requires s != [] && MatchNumeric(s, hex).None?
    requires FirstBadEntity(s[1..], hex, i)
    ensures FirstBadEntity(s, hex, i + 1)
  {
    assert s[1..][i..] == s[i + 1..];
    forall k | 0 <= k < i + 1 ensures !BadEntityAt(s, hex, k) {
      if k == 0 {
        assert s[0..] == s;
      } else if k < |s| {
        assert s[k..] == s[1..][k - 1..];
        assert !BadEntityAt(s[1..], hex, k - 1);
      }
    }
  }

  /** Decoding fails exactly when some numeric entity's replacement raises.
      Matches never overlap, since none contains a second '&', so every
      entity is reached by the scan. */
  lemma {:induction false} DecodeNumericFails(s: string, hex: bool)
    ensures DecodeNumeric(s, hex).Failure? <==> exists i :: BadEntityAt(s, hex, i)
    decreases |s|
  {
    if s != [] {
      assert s[0..] == s;
      match MatchNumeric(s, hex)
      case Some((n, v)) =>
        DecodeNumericFails(s[n..], hex);
        BadEntityAfterMatch(s, hex, n);
      case None =>
        DecodeNumericFails(s[1..], hex);
        BadEntityAfterChar(s, hex);
    }
  }

  /** A failed decoding reports the error of the first bad entity. */
  lemma {:induction false} DecodeNumericFirstError(s: string, hex: bool)
    requires DecodeNumeric(s, hex).Failure?
    ensures exists i :: FirstBadEntity(s, hex, i) && DecodeNumeric(s, hex).error == EntityChar(s[i..], hex).error
    decreases |s|
  {
    assert s[0..] == s;
    match MatchNumeric(s, hex)
    case Some((n, v)) =>
      if EntityChar(s, hex).Failure? {
        assert FirstBadEntity(s, hex, 0);
      } else {
        DecodeNumericFirstError(s[n..], hex);
        var i :| FirstBadEntity(s[n..], hex, i) && DecodeNumeric(s[n..], hex).error == EntityChar(s[n..][i..], hex).error;
        FirstErrorAfterMatch(s, hex, n, i);
      }
    case None =>
      DecodeNumericFirstError(s[1..], hex);
      var i :| FirstBadEntity(s[1..], hex, i) && DecodeNumeric(s[1..], hex).error == EntityChar(s[1..][i..], hex).error;
      FirstErrorAfterChar(s, hex, i);
  }

  /** The error of a decoding that fails after an accepted match. */
  lemma FirstErrorAfterMatch(s: string, hex: bool, n: nat, i: int)
    requires MatchNumeric(s, hex).Some? && n == MatchNumeric(s, hex).value.0
    requires EntityChar(s, hex).Success? && DecodeNumeric(s[n..], hex).Failure?
    requires FirstBadEntity(s[n..], hex, i) && DecodeNumeric(s[n..], hex).error == EntityChar(s[n..][i..], hex).error
    ensures FirstBadEntity(s, hex, i + n) && DecodeNumeric(s, hex).error == EntityChar(s[i + n..], hex).error
  {
    FirstBadAfterMatch(s, hex, n, i);
    assert s[n..][i..] == s[i + n..];
  }

  /** The error of a decoding that fails after a character no entity starts at. */
  lemma FirstErrorAfterChar(s: string, hex: bool, i: int)
    requires s != [] && MatchNumeric(s, hex).None? && DecodeNumeric(s[1..], hex).Failure?
    requires FirstBadEntity(s[1..], hex, i) && DecodeNumeric(s[1..], hex).error == EntityChar(s[1..][i..], hex).error
    ensures FirstBadEntity(s, hex, i + 1) && DecodeNumeric(s, hex).error == EntityChar(s[i + 1..], hex).error
  {
    FirstBadAfterChar(s, hex, i);
    assert s[1..][i..] == s[i + 1..];
  }

  /** Without an '&' numeric decoding succeeds and changes nothing. */
  lemma {:induction false} DecodeNumericWithoutAmpersand(s: string, hex: bool)
    requires '&' !in s
    ensures DecodeNumeric(s, hex) == Success(s)
    decreases |s|
  {
    if s != [] {
      assert s[0] in s;
      assert forall c | c in s[1..] :: c in s;
      DecodeNumericWithoutAmpersand(s[1..], hex);
      assert [s[0]] + s[1..] == s;
    }
  }

  /** A character other than '&' is kept and the scan moves on. */
  lemma DecodeKeepsNonAmpersand(s: string, hex: bool)
    requires s != [] && s[0] != '&'
    ensures DecodeNumeric(s, hex).Success? <==> DecodeNumeric(s[1..], hex).Success?
    ensures DecodeNumeric(s, hex).Success? ==>
      DecodeNumeric(s, hex).value == [s[0]] + DecodeNumeric(s[1..], hex).value
    ensures DecodeNumeric(s, hex).Failure? ==> DecodeNumeric(s, hex).error == DecodeNumeric(s[1..], hex).error
  {
    assert MatchNumeric(s, hex).None?;
  }

  /** Text before the first '&' is kept, and decoding the rest decides
      the outcome. */
  lemma {:induction false} DecodeNumericAfterPlain(a: string, t: string, hex: bool)
    requires '&' !in a
    ensures DecodeNumeric(a + t, hex).Success? <==> DecodeNumeric(t, hex).Success?
    ensures DecodeNumeric(t, hex).Success? ==> DecodeNumeric(a + t, hex).value == a + DecodeNumeric(t, hex).value
    ensures DecodeNumeric(t, hex).Failure? ==> DecodeNumeric(a + t, hex).error == DecodeNumeric(t, hex).error
  {
    if a == [] {
      assert a + t == t;
    } else {
      var s := a + t;
      assert s[0] == a[0] && s[1..] == a[1..] + t;
      DecodeKeepsNonAmpersand(s, hex);
      DecodeNumericAfterPlain(a[1..], t, hex);
      if DecodeNumeric(t, hex).Success? {
        PrependRest(a, DecodeNumeric(t, hex).value);
      }
    }
  }

  /** A numeric entity whose replacement succeeds is replaced in place by
      its character; the text before it and the '&'-free text after it are
      kept. */
  lemma DecodeEntityInPlace(a: string, s: string, hex: bool)
    requires '&' !in a && MatchNumeric(s, hex).Some? && EntityChar(s, hex).Success?
    requires '&' !in s[MatchNumeric(s, hex).value.0..]
    ensures DecodeNumeric(a + s, hex)
      == Success(a + [EntityChar(s, hex).value] + s[MatchNumeric(s, hex).value.0..])
  {
    var n := MatchNumeric(s, hex).value.0;
    var c := EntityChar(s, hex).value;
    DecodeNumericWithoutAmpersand(s[n..], hex);
    assert DecodeNumeric(s, hex) == Success([c] + s[n..]);
    DecodeNumericAfterPlain(a, s, hex);
    assert a + ([c] + s[n..]) == a + [c] + s[n..];
  }

  /** An '&' followed by text without ';' starts no numeric entity, so
      decoding keeps it. */
  lemma DecodeNumericLoneAmpersand(a: string, b: string, hex: bool)
    requires '&' !in a && '&' !in b && ';' !in b
    ensures DecodeNumeric(a + "&" + b, hex) == Success(a + "&" + b)
  {
    var t := "&" + b;
    forall j | 1 <= j < |t| ensures t[j] != ';' {
      assert t[j] == b[j - 1];
    }
    assert MatchNumeric(t, hex).None?;
    assert t[1..] == b;
    DecodeNumericWithoutAmpersand(b, hex);
    assert DecodeNumeric(t, hex) == Success(t);
    assert a + "&" + b == a + t;
    DecodeNumericAfterPlain(a, t, hex);
  }

  /** Only ' ' as whitespace, and never two whitespace characters in a row. */
  predicate SingleSpaced(s: string) {
    && (forall i | 0 <= i < |s| :: IsSpace(s[i]) ==> s[i] == ' ')
    && (forall i, j | 0 <= i < |s| && 0 <= j < |s| && j == i + 1 :: !(IsSpace(s[i]) && IsSpace(s[j])))
  }

  /** `re.sub(r'\s+', ' ', s)`: each maximal run of whitespace becomes one
      space. */
  function CollapseSpace(s: string): (r: string)
    ensures SingleSpaced(r)
    ensures |r| == 0 <==> |s| == 0
    ensures |s| > 0 ==> (IsSpace(r[0]) <==> IsSpace(s[0]))
    decreases |s|
  {
    if s == [] then []
    else if IsSpace(s[0]) then
      var rest := TrimStart(s);
      TrimStartMargins(s);
      [' '] + CollapseSpace(rest)
    else [s[0]] + CollapseSpace(s[1..])
  }

  /** Collapsing changes nothing in text without whitespace. */
  lemma {:induction false} CollapseSpaceWithoutSpace(s: string)
    requires forall i | 0 <= i < |s| :: !IsSpace(s[i])
    ensures CollapseSpace(s) == s
    decreases |s|
  {
    if s != [] {
      CollapseSpaceWithoutSpace(s[1..]);
    }
  }

  /** The last index in `[lo, hi)` that holds a newline. */
  function LastNewline(s: string, lo: nat, hi: nat): (r: Option<nat>)
    requires lo <= hi <= |s|
    ensures r.Some? ==> lo <= r.value < hi && s[r.value] == '\n'
    decreases hi
  {
    if hi <= lo then None
    else if s[hi - 1] == '\n' then Some(hi - 1)
    else LastNewline(s, lo, hi - 1)
  }

  /** The match of `\n\s*\n` at the start of `s`: the greedy `\s*` takes the
      whole whitespace run and gives back up to its last newline. */
  function MatchBlankLines(s: string): (n: Option<nat>)
    ensures n.Some? ==> 1 < n.value <= |s| && s[0] == '\n'
  {
    if |s| > 0 && s[0] == '\n' then
      var runEnd := |s| - |TrimStart(s[1..])|;
      match LastNewline(s, 1, runEnd)
      case Some(k) => Some(k + 1)
      case None => None
    else None
  }

  /** `re.sub(r'\n\s*\n', '\n\n', s)`. */
  function CollapseBlankLines(s: string): (r: string)
    ensures |r| <= |s|
    decreases |s|
  {
    if s == [] then []
    else match MatchBlankLines(s)
      case Some(n) => "\n\n" + CollapseBlankLines(s[n..])
      case None => [s[0]] + CollapseBlankLines(s[1..])
  }

  /** Without a newline the blank-line substitution changes nothing: after
      whitespace has been collapsed it never fires. */
  lemma {:induction false} CollapseBlankLinesWithoutNewline(s: string)
    requires '\n' !in s
    ensures CollapseBlankLines(s) == s
    decreases |s|
  {
    if s != [] {
      assert s[0] in s;
      assert forall c | c in s[1..] :: c in s;
      CollapseBlankLinesWithoutNewline(s[1..]);
    }
  }

  /** A slice of single-spaced text is single-spaced. */
  lemma SingleSpacedSlice(s: string, i: nat, j: nat)
    requires SingleSpaced(s) && i <= j <= |s|
    ensures SingleSpaced(s[i..j])
  {
    var t := s[i..j];
    forall k | 0 <= k < |t| ensures t[k] == s[i + k] {}
  }

  /** Stripping single-spaced text without newlines keeps it so. */
  lemma StripSingleSpaced(s: string)
    requires SingleSpaced(s) && '\n' !in s
    ensures SingleSpaced(Strip(s)) && '\n' !in Strip(s)
  {
    var i, j := StripSlice(s);
    SingleSpacedSlice(s, i, j);
    assert forall c | c in s[i..j] :: c in s;
  }

  /** What `_clean_html` promises of its text: single-spaced, no newline,
      no whitespace at either end. */
  predicate IsTidy(s: string) {
    && SingleSpaced(s) && '\n' !in s
    && (s != [] ==> !IsSpace(s[0]) && !IsSpace(s[|s| - 1]))
  }

  /** The final whitespace clean-up of `_clean_html`: collapse runs, the
      blank-line substitution, strip. */
  function TidySpace(s: string): (r: string)
    ensures IsTidy(r)
  {
    var spaced := CollapseSpace(s);
    assert '\n' !in spaced by {
      forall k | 0 <= k < |spaced| ensures spaced[k] != '\n' {
        assert IsSpace(spaced[k]) ==> spaced[k] == ' ';
      }
    }
    CollapseBlankLinesWithoutNewline(spaced);
    StripSingleSpaced(spaced);
    Strip(CollapseBlankLines(spaced))
  }

  /** Collapsing whitespace runs keeps every other character, in order. */
  lemma {:induction false} CollapseSpaceKeepsText(s: string)
    ensures NonSpace(CollapseSpace(s)) == NonSpace(s)
    decreases |s|
  {
    if s != [] {
      if IsSpace(s[0]) {
        var rest := TrimStart(s);
        TrimStartMargins(s);
        var k := |s| - |rest|;
        assert s == s[..k] + rest;
        NonSpaceAppend(s[..k], rest);
        NonSpaceEmpty(s[..k]);
        CollapseSpaceKeepsText(rest);
        NonSpaceAppend([' '], CollapseSpace(rest));
      } else {
        CollapseSpaceKeepsText(s[1..]);
        NonSpaceAppend([s[0]], CollapseSpace(s[1..]));
        NonSpaceAppend([s[0]], s[1..]);
        assert s == [s[0]] + s[1..];
      }
    }
  }

  /** The blank-line match covers whitespace only. */
  lemma MatchBlankLinesBlank(s: string)
    requires MatchBlankLines(s).Some?
    ensures IsBlank(s[..MatchBlankLines(s).value])
  {
    var n := MatchBlankLines(s).value;
    var tail := s[1..];
    TrimStartMargins(tail);
    var runEnd := |s| - |TrimStart(tail)|;
    assert n <= runEnd;
    forall j | 1 <= j < n ensures IsSpace(s[j]) {
      assert s[j] == tail[..runEnd - 1][j - 1];
    }
  }

  /** The blank-line substitution keeps every character but whitespace. */
  lemma {:induction false} CollapseBlankLinesKeepsText(s: string)
    ensures NonSpace(CollapseBlankLines(s)) == NonSpace(s)
    decreases |s|
  {
    if s != [] {
      match MatchBlankLines(s)
      case Some(n) =>
        MatchBlankLinesBlank(s);
        assert s == s[..n] + s[n..];
        NonSpaceAppend(s[..n], s[n..]);
        NonSpaceEmpty(s[..n]);
        CollapseBlankLinesKeepsText(s[n..]);
        NonSpaceAppend("\n\n", CollapseBlankLines(s[n..]));
        NonSpaceEmpty("\n\n");
      case None =>
        CollapseBlankLinesKeepsText(s[1..]);
        NonSpaceAppend([s[0]], CollapseBlankLines(s[1..]));
        NonSpaceAppend([s[0]], s[1..]);
        assert s == [s[0]] + s[1..];
    }
  }

  /** The whitespace clean-up as a whole loses nothing but whitespace. */
  lemma TidySpaceKeepsText(s: string)
    ensures NonSpace(TidySpace(s)) == NonSpace(s)
  {
    CollapseSpaceKeepsText(s);
    CollapseBlankLinesKeepsText(CollapseSpace(s));
    StripKeepsText(CollapseBlankLines(CollapseSpace(s)));
  }

  /** Collapsing whitespace runs keeps the words. */
  lemma {:induction false} CollapseSpaceWords(s: string)
    ensures Words(CollapseSpace(s)) == Words(s)
    decreases |s|
  {
    if s != [] {
      if IsSpace(s[0]) {
        var rest := TrimStart(s);
        TrimStartMargins(s);
        var k := |s| - |rest|;
        assert s == s[..k] + rest;
        WordsBlankPrefix(s[..k], rest);
        CollapseSpaceWords(rest);
        WordsSpaceCons(' ', CollapseSpace(rest));
      } else {
        CollapseSpaceWords(s[1..]);
        WordsCons(s[0], CollapseSpace(s[1..]));
        WordsCons(s[0], s[1..]);
        assert s == [s[0]] + s[1..];
      }
    }
  }

  /** The blank-line substitution starts with whitespace exactly when its
      input does. */
  lemma CollapseBlankLinesHead(s: string)
    ensures CollapseBlankLines(s) == [] <==> s == []
    ensures s != [] ==> (IsSpace(CollapseBlankLines(s)[0]) <==> IsSpace(s[0]))
  {
  }

  /** The blank-line substitution keeps the words. */
  lemma {:induction false} CollapseBlankLinesWords(s: string)
    ensures Words(CollapseBlankLines(s)) == Words(s)
    decreases |s|
  {
    if s != [] {
      match MatchBlankLines(s)
      case Some(n) =>
        MatchBlankLinesBlank(s);
        assert s == s[..n] + s[n..];
        WordsBlankPrefix(s[..n], s[n..]);
        CollapseBlankLinesWords(s[n..]);
        WordsBlankPrefix("\n\n", CollapseBlankLines(s[n..]));
      case None =>
        var rest := s[1..];
        assert s == [s[0]] + rest;
        CollapseBlankLinesWords(rest);
        if IsSpace(s[0]) {
          WordsSpaceCons(s[0], CollapseBlankLines(rest));
          WordsSpaceCons(s[0], rest);
        } else {
          CollapseBlankLinesHead(rest);
          WordsCons(s[0], CollapseBlankLines(rest));
          WordsCons(s[0], rest);
        }
    }
  }

  /** The whitespace clean-up keeps the words: `TidySpace(s).split() ==
      s.split()`. */
  lemma TidySpaceWords(s: string)
    ensures Words(TidySpace(s)) == Words(s)
  {
    CollapseSpaceWords(s);
    CollapseBlankLinesWords(CollapseSpace(s));
    StripWords(CollapseBlankLines(CollapseSpace(s)));
  }

  /** A tidy suffix of tidy text. */
  lemma TidySuffix(s: string, i: nat)
    requires IsTidy(s) && i < |s| && !IsSpace(s[i])
    ensures IsTidy(s[i..])
  {
    SingleSpacedSlice(s, i, |s|);
    assert s[i..] == s[i..|s|];
    assert forall c | c in s[i..] :: c in s;
  }

  /** Prefixing a non-space character to the first of several words. */
  lemma JoinWordsCons(c: char, words: seq<string>)
    requires words != []
    ensures JoinWords([[c] + words[0]] + words[1..]) == [c] + JoinWords(words)
  {
    var joined := [[c] + words[0]] + words[1..];
    assert joined[1..] == words[1..];
    if |words| > 1 {
      assert ([c] + words[0]) + " " + JoinWords(words[1..])
        == [c] + (words[0] + " " + JoinWords(words[1..]));
    }
  }

  /** Tidy text is its words joined by single spaces. */
  lemma {:induction false} TidyIsJoin(s: string)
    requires IsTidy(s)
    ensures s == JoinWords(Words(s))
    decreases |s|
  {
    if s != [] {
      var c, x := s[0], s[1..];
      assert s == [c] + x;
      WordsCons(c, x);
      if x == [] {
      } else if !IsSpace(x[0]) {
        TidySuffix(s, 1);
        TidyIsJoin(x);
        JoinWordsCons(c, Words(x));
      } else {
        TidyAfterSpace(s);
        var y := s[2..];
        TidyIsJoin(y);
        assert x == [x[0]] + y;
        WordsSpaceCons(x[0], y);
        var words := [[c]] + Words(y);
        assert words[1..] == Words(y);
      }
    }
  }

  /** In tidy text a space after the first character is a single space
      followed by more text. */
  lemma TidyAfterSpace(s: string)
    requires IsTidy(s) && |s| > 1 && IsSpace(s[1])
    ensures |s| > 2 && s[1] == ' ' && !IsSpace(s[2]) && IsTidy(s[2..])
    ensures Words(s[2..]) != []
  {
    assert !(IsSpace(s[1]) && IsSpace(s[2]));
    TidySuffix(s, 2);
  }

  /** The whitespace clean-up is `" ".join(s.split())`. */
  lemma TidySpaceIsJoin(s: string)
    ensures TidySpace(s) == JoinWords(Words(s))
  {
    TidyIsJoin(TidySpace(s));
    TidySpaceWords(s);
  }

  /** One reassignment of `html` in `_clean_html` before the whitespace
      clean-up. */
  datatype Step =
    | Delete(pattern: Pattern)   // `re.sub(pattern, '', html)`
    | ReplaceNamed               // the literal entity replacements
    | DecodeNumbers(hex: bool)   // the numeric entity substitution

  /** The steps in the order `_clean_html` takes them. */
  const Steps: seq<Step> := [
    Delete(Block("script")), Delete(Block("style")), Delete(Comment), Delete(Tag),
    ReplaceNamed, DecodeNumbers(false), DecodeNumbers(true)
  ]

  function ApplyStep(step: Step, s: string): (r: Result<string, HtmlError>)
    ensures r.Failure? ==> step.DecodeNumbers? && IsRejection(r.error)
  {
    match step
    case Delete(p) => Success(Remove(p, s))
    case ReplaceNamed =>
      NamedEntitiesStartWithAmpersand();
      Success(ReplaceEach(s, NamedEntities))
    case DecodeNumbers(hex) => DecodeNumeric(s, hex)
  }

  /** Apply the steps in order, stopping at the first that fails. */
  function RunSteps(s: string, steps: seq<Step>): (r: Result<string, HtmlError>)
    ensures r.Failure? ==> IsRejection(r.error)
    decreases |steps|
  {
    if steps == [] then Success(s)
    else
      var next :- ApplyStep(steps[0], s);
      RunSteps(next, steps[1..])
  }

  /** `_clean_html`: the empty string stays empty; otherwise scripts,
      styles, comments and tags are deleted, the named entities and then the
      decimal and hexadecimal numeric entities decoded, and whitespace tidied.
      The result is single-spaced, has no newline and no whitespace margin;
      it fails only on an entity whose numeral `int()` or `chr` rejects. */
  function CleanHtml(html: string): (r: Result<string, HtmlError>)
    ensures html == [] ==> r == Success([])
    ensures r.Success? ==> IsTidy(r.value)
    ensures r.Failure? ==> IsRejection(r.error)
  {
    if html == [] then Success([])
    else
      var decoded :- RunSteps(html, Steps);
      Success(TidySpace(decoded))
  }

  /** Text without markup, entities or whitespace comes through unchanged. */
  predicate PlainWord(s: string) {
    forall i | 0 <= i < |s| :: s[i] != '<' && s[i] != '&' && !IsSpace(s[i])
  }

  /** Whitespace tidying leaves a word without whitespace as it is. */
  lemma TidySpaceOfWord(s: string)
    requires s != [] && forall i | 0 <= i < |s| :: !IsSpace(s[i])
    ensures TidySpace(s) == s
  {
    CollapseSpaceWithoutSpace(s);
    assert '\n' !in s by {
      forall k | 0 <= k < |s| ensures s[k] != '\n' {
        assert !IsSpace(s[k]);
      }
    }
    CollapseBlankLinesWithoutNewline(s);
    StripUnchanged(s);
  }

  /** Without '<' and '&' no step changes anything. */
  lemma StepOfPlainText(step: Step, s: string)
    requires '<' !in s && '&' !in s
    ensures ApplyStep(step, s) == Success(s)
  {
    match step
    case Delete(p) => RemoveWithoutLt(p, s);
    case ReplaceNamed =>
      NamedEntitiesStartWithAmpersand();
      ReplaceEachWithoutAmpersand(s, NamedEntities);
    case DecodeNumbers(hex) => DecodeNumericWithoutAmpersand(s, hex);
  }

  lemma {:induction false} StepsOfPlainText(s: string, steps: seq<Step>)
    requires '<' !in s && '&' !in s
    ensures RunSteps(s, steps) == Success(s)
    decreases |steps|
  {
    if steps != [] {
      StepOfPlainText(steps[0], s);
      StepsOfPlainText(s, steps[1..]);
    }
  }

  /** Plain text is its own cleaned form. */
  lemma CleanPlainWord(s: string)
    requires PlainWord(s)
    ensures CleanHtml(s) == Success(s)
  {
    if s != [] {
      assert '<' !in s && '&' !in s;
      StepsOfPlainText(s, Steps);
      TidySpaceOfWord(s);
    }
  }

  /** Text without markup or entities is cleaned without failure, and
      only its whitespace changes. */
  lemma CleanHtmlKeepsText(s: string)
    requires '<' !in s && '&' !in s
    ensures CleanHtml(s).Success?
    ensures NonSpace(CleanHtml(s).value) == NonSpace(s)
  {
    if s != [] {
      StepsOfPlainText(s, Steps);
      TidySpaceKeepsText(s);
    }
  }

  /** Running the steps from the `i`-th on, when that one succeeds. */
  lemma RunStepsAt(s: string, i: nat, t: string)
    requires i < |Steps| && ApplyStep(Steps[i], s) == Success(t)
    ensures RunSteps(s, Steps[i..]) == RunSteps(t, Steps[i + 1..])
  {
    assert Steps[i..][0] == Steps[i];
    assert Steps[i..][1..] == Steps[i + 1..];
  }

  /** The four deletions, when only the last one changes the text. */
  lemma RunDeletions(s: string, u: string)
    requires Remove(Block("script"), s) == s && Remove(Block("style"), s) == s
    requires Remove(Comment, s) == s && Remove(Tag, s) == u
    ensures RunSteps(s, Steps) == RunSteps(u, Steps[4..])
  {
    assert Steps[0..] == Steps;
    RunStepsAt(s, 0, s);
    RunStepsAt(s, 1, s);
    RunStepsAt(s, 2, s);
    RunStepsAt(s, 3, u);
  }

  /** The numeric decodings, when neither changes the text. */
  lemma RunDecodings(t: string)
    requires DecodeNumeric(t, false) == Success(t) && DecodeNumeric(t, true) == Success(t)
    ensures RunSteps(t, Steps[5..]) == Success(t)
  {
    RunStepsAt(t, 5, t);
    RunStepsAt(t, 6, t);
    assert Steps[7..] == [];
  }

  /** When scripts, styles and comments are absent, the tag deletion gives
      `u`, the named entities turn `u` into `v` and no numeric entity is
      decoded, `CleanHtml` gives `v` tidied. */
  lemma CleanThroughSteps(s: string, u: string, v: string)
    requires s != []
    requires Remove(Block("script"), s) == s && Remove(Block("style"), s) == s
    requires Remove(Comment, s) == s && Remove(Tag, s) == u
    requires ReplaceEach(u, NamedEntities) == v
    requires DecodeNumeric(v, false) == Success(v) && DecodeNumeric(v, true) == Success(v)
    ensures CleanHtml(s) == Success(TidySpace(v))
  {
    RunDeletions(s, u);
    RunStepsAt(u, 4, v);
    RunDecodings(v);
  }

  /** A tag in plain text is deleted, the text on either side is joined,
      and only whitespace is tidied: `a<x>b` cleans to `TidySpace(a + b)`. */
  lemma CleanHtmlTag(a: string, x: string, b: string)
    requires '<' !in a && '&' !in a && '<' !in b && '&' !in b
    requires x != [] && '<' !in x && '>' !in x && !StartsWith(x, "!--")
    ensures CleanHtml(a + "<" + x + ">" + b) == Success(TidySpace(a + b))
  {
    var t := "<" + x + ">" + b;
    var s := a + t;
    assert a + "<" + x + ">" + b == s;
    assert t[1..] == x + (">" + b);
    assert '<' !in a + b && '&' !in a + b;
    RemoveAfterPlain(Block("script"), a, t);
    RemoveBlockOfLoneLt(Block("script"), t);
    RemoveAfterPlain(Block("style"), a, t);
    RemoveBlockOfLoneLt(Block("style"), t);
    TagNotComment(x, b);
    RemoveAfterPlain(Comment, a, t);
    RemoveBlockOfLoneLt(Comment, t);
    RemoveTagKeepsSurroundings(a, x, b);
    RemoveWithoutLt(Tag, b);
    NamedEntitiesStartWithAmpersand();
    ReplaceEachWithoutAmpersand(a + b, NamedEntities);
    DecodeNumericWithoutAmpersand(a + b, false);
    DecodeNumericWithoutAmpersand(a + b, true);
    CleanThroughSteps(s, a + b, a + b);
  }

  /** A tag before a plain word leaves just the word. */
  lemma CleanTaggedWord(x: string, w: string)
    requires x != [] && '<' !in x && '>' !in x && !StartsWith(x, "!--")
    requires w != [] && PlainWord(w)
    ensures CleanHtml("<" + x + ">" + w) == Success(w)
  {
    var none: string := [];
    assert none + "<" + x + ">" + w == "<" + x + ">" + w;
    assert none + w == w;
    assert '<' !in w && '&' !in w;
    TidySpaceOfWord(w);
    CleanHtmlTag(none, x, w);
  }

  /** A named entity in plain text becomes its text in place, and only
      whitespace is tidied (after "&amp;", the text must hold no ';'). */
  lemma CleanHtmlNamed(a: string, b: string, k: nat)
    requires k < |NamedEntities| && '<' !in a && '&' !in a && '<' !in b && '&' !in b
    requires k == NamedAmp ==> ';' !in b
    ensures CleanHtml(a + NamedEntities[k].0 + b) == Success(TidySpace(a + NamedEntities[k].1 + b))
  {
    var s := a + NamedEntities[k].0 + b;
    NamedWithoutLt(a, b, k);
    RemoveWithoutLt(Block("script"), s);
    RemoveWithoutLt(Block("style"), s);
    RemoveWithoutLt(Comment, s);
    RemoveWithoutLt(Tag, s);
    ReplaceEachNamed(a, b, k);
    NamedDecodings(a, b, k);
    CleanThroughSteps(s, s, a + NamedEntities[k].1 + b);
  }

  /** An entity between texts without '<' brings in none. */
  lemma NamedWithoutLt(a: string, b: string, k: nat)
    requires k < |NamedEntities| && '<' !in a && '<' !in b
    ensures a + NamedEntities[k].0 + b != [] && '<' !in a + NamedEntities[k].0 + b
  {
    var e := NamedEntities[k].0;
    EntityShape(k);
    ShapedPlain(e);
    assert (a + e + b)[|a|] == e[0];
  }

  /** The numeric decodings leave the text of a replaced entity alone. */
  lemma NamedDecodings(a: string, b: string, k: nat)
    requires k < |NamedEntities| && '&' !in a && '&' !in b
    requires k == NamedAmp ==> ';' !in b
    ensures DecodeNumeric(a + NamedEntities[k].1 + b, false) == Success(a + NamedEntities[k].1 + b)
    ensures DecodeNumeric(a + NamedEntities[k].1 + b, true) == Success(a + NamedEntities[k].1 + b)
  {
    if k == NamedAmp {
      NamedAmpEntry();
      DecodeNumericLoneAmpersand(a, b, false);
      DecodeNumericLoneAmpersand(a, b, true);
    } else {
      EntityTextPlain(k);
      DecodeNumericWithoutAmpersand(a + NamedEntities[k].1 + b, false);
      DecodeNumericWithoutAmpersand(a + NamedEntities[k].1 + b, true);
    }
  }


}
