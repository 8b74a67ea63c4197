/** Language keys, the catch-all tag and the resolution of tag spellings
    (`mapTag` in src/main.ts). */
module Tags {
  import opened Wrappers
  import opened Text

  /** The language variants a song's lyrics may carry. */
  datatype LangKey = Ja | Romaji | Zh | ZhJp

  /** A canonical tag: one language, or the catch-all `all`. */
  datatype TagKey = Lang(key: LangKey) | All

  /** The order of the language toggles and of the cells of a display line. */
  const LANGS: seq<LangKey> := [Ja, Romaji, Zh, ZhJp]

  /** Position of a key in LANGS. */
  function Rank(k: LangKey): (n: nat)
    ensures n < |LANGS| && LANGS[n] == k
  {
    match k
    case Ja => 0
    case Romaji => 1
    case Zh => 2
    case ZhJp => 3
  }

  /** Position of a tag in display order; `all` comes after every language. */
  function TagRank(t: TagKey): nat {
    match t
    case Lang(k) => Rank(k)
    case All => |LANGS|
  }

  /** The canonical spelling of a tag. */
  function Name(t: TagKey): string {
    match t
    case Lang(Ja) => "ja"
    case Lang(Romaji) => "romaji"
    case Lang(Zh) => "zh"
    case Lang(ZhJp) => "zh-jp"
    case All => "all"
  }

  /** Every accepted spelling, already trimmed and lower-cased, with the tag it stands for. */
  const ALIASES: map<string, TagKey> := map[
    "ja" := Lang(Ja), "jp" := Lang(Ja), "jpn" := Lang(Ja),
    "zh-jp" := Lang(ZhJp), "zhjp" := Lang(ZhJp), "zhjpn" := Lang(ZhJp),
    "romaji" := Lang(Romaji), "roma" := Lang(Romaji), "rom" := Lang(Romaji),
    "zh" := Lang(Zh), "cn" := Lang(Zh), "chs" := Lang(Zh), "cht" := Lang(Zh), "zhs" := Lang(Zh),
    "all" := All, "any" := All, "*" := All
  ]

  /** The tag a bracketed label stands for, or None for an unknown label:
      the label is trimmed and lower-cased, then compared with the alias list. */
  function MapTag(t: string): Option<TagKey> {
    Resolve(LowerAscii(Trim(t)))
  }

  /** The cascade of comparisons of `mapTag`, on an already normalised label. */
  function Resolve(s: string): Option<TagKey> {
    if s == "ja" || s == "jp" || s == "jpn" then Some(Lang(Ja))
    else if s == "zh-jp" || s == "zhjp" || s == "zhjpn" then Some(Lang(ZhJp))
    else if s == "romaji" || s == "roma" || s == "rom" then Some(Lang(Romaji))
    else if s == "zh" || s == "cn" || s == "chs" || s == "cht" || s == "zhs" then Some(Lang(Zh))
    else if s == "all" || s == "any" || s == "*" then Some(All)
    else None
  }

  /** A label resolves exactly through the alias list, after trimming and lower-casing. */
  lemma MapTagAliases(t: string)
    ensures var s := LowerAscii(Trim(t));
      MapTag(t) == if s in ALIASES then Some(ALIASES[s]) else None
  {
    ResolveAliases(LowerAscii(Trim(t)));
  }

  /** The cascade of comparisons is a lookup in the alias list. */
  lemma ResolveAliases(s: string)
    ensures Resolve(s) == if s in ALIASES then Some(ALIASES[s]) else None
  {
  }

  /** Every canonical tag is one of its own aliases. */
  lemma MapTagCanonical(t: TagKey)
    ensures MapTag(Name(t)) == Some(t)
  {
    var n := Name(t);
    assert Resolve(n) == Some(t) by {
      match t
      case Lang(Ja) => assert n == "ja";
      case Lang(Romaji) => assert n == "romaji";
      case Lang(Zh) => assert n == "zh";
      case Lang(ZhJp) => assert n == "zh-jp";
      case All => assert n == "all";
    }
    assert !IsWhite(n[0]) && !IsWhite(n[|n| - 1]);
    assert forall i :: 0 <= i < |n| ==> !('A' <= n[i] <= 'Z');
    MapTagNormal(n);
  }

  /** A label that is already trimmed and lower-case resolves by direct lookup. */
  lemma MapTagNormal(n: string)
    requires n == [] || (!IsWhite(n[0]) && !IsWhite(n[|n| - 1]))
    requires forall i :: 0 <= i < |n| ==> !('A' <= n[i] <= 'Z')
    ensures MapTag(n) == Resolve(n)
  {
    TrimUnpadded(n);
    LowerUnchanged(n);
  }

  /** White space around a label does not change the tag it resolves to. */
  lemma MapTagPadded(w1: string, t: string, w2: string)
    requires AllWhite(w1) && AllWhite(w2)
    ensures MapTag(w1 + t + w2) == MapTag(t)
  {
    TrimPadded(w1, t, w2);
  }

  /** Labels that differ only in the case of ASCII letters resolve to the same tag. */
  lemma MapTagCaseInsensitive(a: string, b: string)
    requires LowerAscii(a) == LowerAscii(b)
    ensures MapTag(a) == MapTag(b)
  {
    TrimLower(a);
    TrimLower(b);
  }

  /** `[JP]` and `[ja]` name the same tag. */
  lemma UpperCaseAlias()
    ensures MapTag("JP") == MapTag("ja") == Some(Lang(Ja))
  {
    MapTagCanonical(Lang(Ja));
    JpIsJa();
    var u, l := LowerAscii("JP"), LowerAscii("jp");
    assert u[0] == l[0] && u[1] == l[1];
    MapTagCaseInsensitive("JP", "jp");
  }

  lemma JpIsJa()
    ensures MapTag("jp") == Some(Lang(Ja))
  {
    assert Resolve("jp") == Some(Lang(Ja));
    MapTagNormal("jp");
  }
}
