/**
 * Entity labels: `_normalize_label`, which strips a tagging-scheme prefix,
 * and `ents_for_sentence`, which turns the extractor's items for one sentence
 * into a set of entity types.
 */
module Labels {
  import opened Wrappers

  /**
   * One item returned by the entity extractor. Only its "entity_group" entry
   * is read, and it may be missing; the surface text and the score are not.
   */
  datatype Tag = Tag(entityGroup: Option<string>)

  /** The extractor: the items it returns for one sentence. */
  type Extractor = string -> seq<Tag>

  /** The "no entity" label. */
  const Outside: string := "O"

  /** `item.get("entity_group", "O")`. */
  function LabelOf(item: Tag): string {
    item.entityGroup.GetOr(Outside)
  }

  /** The part of `s` after its first `-`. */
  function AfterFirstDash(s: string): (r: string)
    requires '-' in s
    ensures |r| < |s| && r == s[|s| - |r|..]
    ensures s[|s| - |r| - 1] == '-' && '-' !in s[..|s| - |r| - 1]
  {
    if s[0] == '-' then s[1..]
    else
      var t := s[1..];
      var r := AfterFirstDash(t);
      assert s[..|s| - |r| - 1] == [s[0]] + t[..|t| - |r| - 1];
      r
  }

  /**
   * `_normalize_label`: a label with a `-` keeps what follows its first `-`
   * (`label.split("-", 1)[-1]`); any other label is returned as it is.
   */
  function NormalizeLabel(raw: string): (r: string)
    ensures '-' !in raw ==> r == raw
    ensures '-' in raw ==>
      |r| < |raw| && r == raw[|raw| - |r|..]
      && raw[|raw| - |r| - 1] == '-' && '-' !in raw[..|raw| - |r| - 1]
  {
    if '-' in raw then AfterFirstDash(raw) else raw
  }

  /** Prefixing a dash-free scheme tag and a `-` is undone by normalisation. */
  lemma NormalizePrefixed(prefix: string, entityType: string)
    requires '-' !in prefix
    ensures NormalizeLabel(prefix + "-" + entityType) == entityType
  {
    var raw := prefix + "-" + entityType;
    assert raw[|prefix|] == '-';
  }

  /** The labels of the model's tag set: the scheme prefix goes, "O" stays. */
  lemma NormalizeExamples()
    ensures NormalizeLabel("B-per") == "per"
    ensures NormalizeLabel("I-geo") == "geo"
    ensures NormalizeLabel("O") == "O"
  {
    assert "B-per"[1..] == "-per" && "-per"[1..] == "per";
    assert "I-geo"[1..] == "-geo" && "-geo"[1..] == "geo";
  }

  /** Only the first `-` counts: a label with two keeps everything after the first. */
  lemma NormalizeFirstDash()
    ensures NormalizeLabel("B-I-x") == "I-x"
  {
    NormalizePrefixed("B", "I-x");
    assert "B" + "-" + "I-x" == "B-I-x";
  }

  /**
   * The entity types of one sentence: every item whose raw label is not
   * "O", normalised. The filter looks at the raw label, so "B-O" yields "O".
   */
  ghost function EntitySetOf(items: seq<Tag>): set<string> {
    set item | item in items && LabelOf(item) != Outside :: NormalizeLabel(LabelOf(item))
  }

  /** `ents_for_sentence(s)`: the loop over the extractor's items for `s`. */
  method EntsForSentence(extract: Extractor, s: string) returns (ents: set<string>)
    ensures ents == EntitySetOf(extract(s))
  {
    var items := extract(s);
    ents := {};
    for k := 0 to |items|
      invariant ents == EntitySetOf(items[..k])
    {
      var lab := LabelOf(items[k]);
      if lab != Outside {
        ents := ents + {NormalizeLabel(lab)};
      }
      assert items[..k + 1] == items[..k] + [items[k]];
    }
    assert items[..|items|] == items;
  }

  /** A sentence contributes no entity type exactly when every item is labelled "O" or unlabelled. */
  lemma NoEntityIffOutside(items: seq<Tag>)
    ensures EntitySetOf(items) == {} <==> forall k :: 0 <= k < |items| ==> LabelOf(items[k]) == Outside
  {
    if exists k :: 0 <= k < |items| && LabelOf(items[k]) != Outside {
      var k :| 0 <= k < |items| && LabelOf(items[k]) != Outside;
      assert NormalizeLabel(LabelOf(items[k])) in EntitySetOf(items);
    }
  }

  /** An item with no "entity_group" counts as "O" and contributes nothing. */
  lemma MissingLabelIsOutside(items: seq<Tag>)
    requires forall k :: 0 <= k < |items| ==> items[k].entityGroup.None?
    ensures EntitySetOf(items) == {}
  {
    NoEntityIffOutside(items);
  }

  /** A label that is not "O" before normalisation is kept even when it normalises to "O". */
  lemma SchemeOutsideKept()
    ensures EntitySetOf([Tag(Some("B-O"))]) == {"O"}
  {
    NormalizePrefixed("B", "O");
    assert "B" + "-" + "O" == "B-O";
    assert LabelOf(Tag(Some("B-O"))) == "B-O";
  }
}
