/**
 * The factory that turns parsed OBO stanzas into uPheno terms and term
 * relations. A stanza groups its entries (tag-value lines) by tag; a term needs
 * exactly one `id` and one `name` tag, at most one of each of `def`,
 * `comment`, `is_obsolete`, `created_by` and `creation_date`, and any number
 * of `alt_id`, `subset` and `synonym` tags. Every `is_a` tag becomes a relation
 * whose id the factory draws from a counter starting at 1; the other relation
 * tags are not supported.
 */
module UphenoOboFactories {
  import opened Wrappers
  import opened TermIds

  /** The tags a stanza entry can carry. */
  datatype StanzaEntryType =
    | Id | Name | AltId | Def | Comment | Subset | Synonym | IsObsolete | CreatedBy | CreationDate
    | IsA | DisjointFrom | UnionOf | IntersectionOf | Relationship

  /** The scope of a synonym, as OBO 1.4 defines it. */
  datatype TermSynonymScope = Exact | Broad | Narrow | Related

  /** A cross reference: the referenced id and an optional description. */
  datatype DbXref = DbXref(name: string, description: Option<string>)

  /** One tag-value line of a stanza, with the values the factory reads. */
  datatype StanzaEntry =
    | IdEntry(id: string)
    | NameEntry(name: string)
    | AltIdEntry(altId: string)
    | DefEntry(text: string)
    | CommentEntry(text: string)
    | SubsetEntry(name: string)
    | SynonymEntry(text: string, scope: TermSynonymScope, synonymTypeName: Option<string>, dbXrefs: seq<DbXref>)
    | IsObsoleteEntry(value: bool)
    | CreatedByEntry(creator: string)
    | CreationDateEntry(date: string)
    | IsAEntry(id: string)
    | DisjointFromEntry(id: string)
    | UnionOfEntry(id: string)
    | IntersectionOfEntry(id: string)
    | RelationshipEntry(relationshipType: string, id: string)

  function TypeOf(e: StanzaEntry): StanzaEntryType {
    match e
    case IdEntry(_) => Id
    case NameEntry(_) => Name
    case AltIdEntry(_) => AltId
    case DefEntry(_) => Def
    case CommentEntry(_) => Comment
    case SubsetEntry(_) => Subset
    case SynonymEntry(_, _, _, _) => Synonym
    case IsObsoleteEntry(_) => IsObsolete
    case CreatedByEntry(_) => CreatedBy
    case CreationDateEntry(_) => CreationDate
    case IsAEntry(_) => IsA
    case DisjointFromEntry(_) => DisjointFrom
    case UnionOfEntry(_) => UnionOf
    case IntersectionOfEntry(_) => IntersectionOf
    case RelationshipEntry(_, _) => Relationship
  }

  /** `Stanza`: the entries of one stanza, grouped by tag. */
  datatype Stanza = Stanza(entryByType: map<StanzaEntryType, seq<StanzaEntry>>)

  /** The entry is of the kind the tag `t` carries. */
  predicate HasTag(e: StanzaEntry, t: StanzaEntryType) {
    match t
    case Id => e.IdEntry?
    case Name => e.NameEntry?
    case AltId => e.AltIdEntry?
    case Def => e.DefEntry?
    case Comment => e.CommentEntry?
    case Subset => e.SubsetEntry?
    case Synonym => e.SynonymEntry?
    case IsObsolete => e.IsObsoleteEntry?
    case CreatedBy => e.CreatedByEntry?
    case CreationDate => e.CreationDateEntry?
    case IsA => e.IsAEntry?
    case DisjointFrom => e.DisjointFromEntry?
    case UnionOf => e.UnionOfEntry?
    case IntersectionOf => e.IntersectionOfEntry?
    case Relationship => e.RelationshipEntry?
  }

  /** An entry carries exactly the tag `TypeOf` names. */
  lemma {:induction false} HasTagOfType(e: StanzaEntry, t: StanzaEntryType)
    ensures HasTag(e, t) <==> TypeOf(e) == t
  {
  }

  /** Every entry is filed under its own tag. */
  predicate WellTyped(stanza: Stanza) {
    forall t, k :: t in stanza.entryByType && 0 <= k < |stanza.entryByType[t]| ==> HasTag(stanza.entryByType[t][k], t)
  }

  datatype FactoryError =
    /** A tag that must occur once is absent (`None`) or occurs the given number of times. */
    | CardinalityNotOne(tag: StanzaEntryType, count: Option<nat>)
    /** A tag that may occur at most once occurs the given number of times (0 for an empty list). */
    | CardinalityAboveOne(tag: StanzaEntryType, size: nat)
    /** The term id map was never set (`NullPointerException`). */
    | TermIdsNotSet
    /** The creation date does not parse. */
    | BadDate(text: string)
    /** A relation tag the factory does not support (`UnsupportedOperationException`). */
    | Unsupported(tag: StanzaEntryType)

  /** `termIds.get(key)`: `None` for an id that was not registered. */
  function Lookup(termIds: map<string, TermId>, key: string): (r: Option<TermId>)
    ensures r.Some? <==> key in termIds
    ensures r.Some? ==> r.value == termIds[key]
  {
    if key in termIds then Some(termIds[key]) else None
  }

  /** The tag occurs exactly once. */
  predicate One(stanza: Stanza, t: StanzaEntryType) {
    t in stanza.entryByType && |stanza.entryByType[t]| == 1
  }

  /** The tag is absent or occurs exactly once. */
  predicate ZeroOrOne(stanza: Stanza, t: StanzaEntryType) {
    t !in stanza.entryByType || |stanza.entryByType[t]| == 1
  }

  /**
   * `getCardinalityOneEntry`: the single entry of the tag; fails when the tag
   * is absent or does not occur exactly once.
   */
  function GetCardinalityOneEntry(stanza: Stanza, t: StanzaEntryType): (r: Result<StanzaEntry, FactoryError>)
    ensures r.Success? <==> One(stanza, t)
    ensures r.Success? ==> r.value == stanza.entryByType[t][0]
    ensures t !in stanza.entryByType ==> r == Failure(CardinalityNotOne(t, None))
    ensures t in stanza.entryByType && !One(stanza, t) ==> r == Failure(CardinalityNotOne(t, Some(|stanza.entryByType[t]|)))
  {
    if t !in stanza.entryByType then Failure(CardinalityNotOne(t, None))
    else if |stanza.entryByType[t]| != 1 then Failure(CardinalityNotOne(t, Some(|stanza.entryByType[t]|)))
    else Success(stanza.entryByType[t][0])
  }

  /**
   * `getCardinalityZeroOrOneEntry`: no entry (`null`) for an absent tag, the
   * single entry of a tag that occurs once, and a failure for a tag that occurs
   * any other number of times, an empty list included.
   */
  function GetCardinalityZeroOrOneEntry(stanza: Stanza, t: StanzaEntryType): (r: Result<Option<StanzaEntry>, FactoryError>)
    ensures r.Success? <==> ZeroOrOne(stanza, t)
    ensures r == Success(None) <==> t !in stanza.entryByType
    ensures r.Success? && r.value.Some? ==> r.value.value == stanza.entryByType[t][0]
    ensures r.Failure? ==> r.error == CardinalityAboveOne(t, |stanza.entryByType[t]|)
  {
    if t !in stanza.entryByType then Success(None)
    else if |stanza.entryByType[t]| != 1 then Failure(CardinalityAboveOne(t, |stanza.entryByType[t]|))
    else Success(Some(stanza.entryByType[t][0]))
  }

  /**
   * The two lookups agree on a tag that is present: the optional one finds an
   * entry exactly when the mandatory one succeeds, and the same entry.
   */
  lemma CardinalitiesAgree(stanza: Stanza, t: StanzaEntryType)
    ensures GetCardinalityOneEntry(stanza, t).Success? <==> GetCardinalityZeroOrOneEntry(stanza, t).Success? && GetCardinalityZeroOrOneEntry(stanza, t).value.Some?
    ensures GetCardinalityOneEntry(stanza, t).Success? ==> GetCardinalityZeroOrOneEntry(stanza, t).value == Some(GetCardinalityOneEntry(stanza, t).value)
    ensures GetCardinalityOneEntry(stanza, t).Failure? && t in stanza.entryByType ==> GetCardinalityZeroOrOneEntry(stanza, t).Failure?
  {
  }

  /** The entries of a tag; none for an absent tag (Java's fresh empty list). */
  function EntriesOf(stanza: Stanza, t: StanzaEntryType): (es: seq<StanzaEntry>)
    ensures t !in stanza.entryByType ==> es == []
    ensures WellTyped(stanza) ==> forall k :: 0 <= k < |es| ==> HasTag(es[k], t)
  {
    if t in stanza.entryByType then stanza.entryByType[t] else []
  }

  /** `ImmutableTermXref`: the resolved id and the description. */
  datatype TermXref = TermXref(id: Option<TermId>, description: Option<string>)

  /** `ImmutableTermSynonym`. */
  datatype TermSynonym = TermSynonym(value: string, scope: TermSynonymScope, synonymTypeName: Option<string>, termXrefs: seq<TermXref>)

  /** `UphenoTerm`; `None` stands for Java's `null`. */
  datatype UphenoTerm = UphenoTerm(
    id: Option<TermId>,
    altTermIds: seq<Option<TermId>>,
    name: string,
    definition: Option<string>,
    comment: Option<string>,
    subsets: seq<string>,
    synonyms: seq<TermSynonym>,
    obsolete: bool,
    createdBy: Option<string>,
    creationDate: Option<int>)

  /** A synonym entry with its cross references resolved. */
  function SynonymOf(termIds: map<string, TermId>, e: StanzaEntry): (s: TermSynonym)
    requires e.SynonymEntry?
    ensures s.value == e.text && s.scope == e.scope && s.synonymTypeName == e.synonymTypeName
    ensures |s.termXrefs| == |e.dbXrefs|
    ensures forall k :: 0 <= k < |e.dbXrefs| ==>
      s.termXrefs[k] == TermXref(Lookup(termIds, e.dbXrefs[k].name), e.dbXrefs[k].description)
  {
    var xrefs := seq(|e.dbXrefs|, k requires 0 <= k < |e.dbXrefs| => TermXref(Lookup(termIds, e.dbXrefs[k].name), e.dbXrefs[k].description));
    TermSynonym(e.text, e.scope, e.synonymTypeName, xrefs)
  }

  /** The creation date, parsed, when the tag is present. */
  function CreationDateOf(e: Option<StanzaEntry>, parseDate: string -> Option<int>): (r: Result<Option<int>, FactoryError>)
    requires e.Some? ==> e.value.CreationDateEntry?
    ensures r.Success? <==> e.None? || parseDate(e.value.date).Some?
    ensures r.Success? ==> r.value == if e.None? then None else parseDate(e.value.date)
  {
    match e
    case None => Success(None)
    case Some(entry) =>
      match parseDate(entry.date)
      case None => Failure(BadDate(entry.date))
      case Some(d) => Success(Some(d))
  }

  /** Whether `constructTerm` succeeds on the stanza: the reference condition. */
  predicate TermConstructible(termIds: Option<map<string, TermId>>, stanza: Stanza, parseDate: string -> Option<int>) {
    && One(stanza, Id) && termIds.Some? && One(stanza, Name)
    && ZeroOrOne(stanza, Def) && ZeroOrOne(stanza, Comment) && ZeroOrOne(stanza, IsObsolete)
    && ZeroOrOne(stanza, CreatedBy) && ZeroOrOne(stanza, CreationDate)
    && (CreationDate in stanza.entryByType ==> (stanza.entryByType[CreationDate][0].CreationDateEntry? && parseDate(stanza.entryByType[CreationDate][0].date).Some?))
  }

  /**
   * The term `constructTerm` builds from a stanza that passes its checks: the
   * list tags mapped entry by entry, in order, the single-valued ones read off
   * their entries, absent ones as `None` (and `is_obsolete` as false).
   */
  function TermOf(ids: map<string, TermId>, stanza: Stanza, parseDate: string -> Option<int>): UphenoTerm
    requires WellTyped(stanza) && TermConstructible(Some(ids), stanza, parseDate)
  {
    var m := stanza.entryByType;
    var alts := EntriesOf(stanza, AltId);
    var subsetEntries := EntriesOf(stanza, Subset);
    var synonymEntries := EntriesOf(stanza, Synonym);
    UphenoTerm(
      Lookup(ids, m[Id][0].id),
      seq(|alts|, k requires 0 <= k < |alts| => Lookup(ids, alts[k].altId)),
      m[Name][0].name,
      if Def in m then Some(m[Def][0].text) else None,
      if Comment in m then Some(m[Comment][0].text) else None,
      seq(|subsetEntries|, k requires 0 <= k < |subsetEntries| => subsetEntries[k].name),
      seq(|synonymEntries|, k requires 0 <= k < |synonymEntries| => SynonymOf(ids, synonymEntries[k])),
      IsObsolete in m && m[IsObsolete][0].value,
      if CreatedBy in m then Some(m[CreatedBy][0].creator) else None,
      if CreationDate in m then parseDate(m[CreationDate][0].date) else None)
  }

  /**
   * `constructTerm`: reads the stanza's tags in the order the source does and
   * fails at the first one whose cardinality is wrong (or whose date does not
   * parse); `termIds` is the factory's id map, `None` until it is set.
   */
  function ConstructTerm(termIds: Option<map<string, TermId>>, stanza: Stanza, parseDate: string -> Option<int>): (r: Result<UphenoTerm, FactoryError>)
    requires WellTyped(stanza)
    ensures r.Success? <==> TermConstructible(termIds, stanza, parseDate)
    ensures r.Success? ==> r.value == TermOf(termIds.value, stanza, parseDate)
  {
    var idEntry :- GetCardinalityOneEntry(stanza, Id);
    if termIds.None? then Failure(TermIdsNotSet)
    else
      var nameEntry :- GetCardinalityOneEntry(stanza, Name);
      var defEntry :- GetCardinalityZeroOrOneEntry(stanza, Def);
      var commentEntry :- GetCardinalityZeroOrOneEntry(stanza, Comment);
      var isObsoleteEntry :- GetCardinalityZeroOrOneEntry(stanza, IsObsolete);
      var createdByEntry :- GetCardinalityZeroOrOneEntry(stanza, CreatedBy);
      var creationDateEntry :- GetCardinalityZeroOrOneEntry(stanza, CreationDate);
      var creationDate :- CreationDateOf(creationDateEntry, parseDate);
      Success(TermOf(termIds.value, stanza, parseDate))
  }

  /** The constructed term's id is the looked-up `id` tag and its name the `name` tag. */
  lemma ConstructTermIdName(termIds: Option<map<string, TermId>>, stanza: Stanza, parseDate: string -> Option<int>)
    requires WellTyped(stanza) && ConstructTerm(termIds, stanza, parseDate).Success?
    ensures One(stanza, Id) && One(stanza, Name) && termIds.Some?
    ensures ConstructTerm(termIds, stanza, parseDate).value.id == Lookup(termIds.value, stanza.entryByType[Id][0].id)
    ensures ConstructTerm(termIds, stanza, parseDate).value.name == stanza.entryByType[Name][0].name
  {
  }

  /**
   * The list tags of a constructed term: an absent tag gives an empty list and
   * a present one is mapped entry by entry, in order.
   */
  lemma ConstructTermLists(termIds: Option<map<string, TermId>>, stanza: Stanza, parseDate: string -> Option<int>)
    requires WellTyped(stanza) && ConstructTerm(termIds, stanza, parseDate).Success?
    ensures var term := ConstructTerm(termIds, stanza, parseDate).value;
      var m := stanza.entryByType;
      && (AltId !in m ==> term.altTermIds == [])
      && (AltId in m ==> |term.altTermIds| == |m[AltId]| && forall k :: 0 <= k < |m[AltId]| ==> term.altTermIds[k] == Lookup(termIds.value, m[AltId][k].altId))
      && (Subset !in m ==> term.subsets == [])
      && (Subset in m ==> |term.subsets| == |m[Subset]| && forall k :: 0 <= k < |m[Subset]| ==> term.subsets[k] == m[Subset][k].name)
      && (Synonym !in m ==> term.synonyms == [])
      && (Synonym in m ==> |term.synonyms| == |m[Synonym]| && forall k :: 0 <= k < |m[Synonym]| ==> term.synonyms[k] == SynonymOf(termIds.value, m[Synonym][k]))
  {
  }

  /**
   * The single-valued tags of a constructed term: an absent `is_obsolete`
   * means not obsolete; an absent `def`, `comment`, `created_by` or
   * `creation_date` gives `None`, a present one its value.
   */
  lemma ConstructTermDefaults(termIds: Option<map<string, TermId>>, stanza: Stanza, parseDate: string -> Option<int>)
    requires WellTyped(stanza) && ConstructTerm(termIds, stanza, parseDate).Success?
    ensures var term := ConstructTerm(termIds, stanza, parseDate).value;
      var m := stanza.entryByType;
      && (term.obsolete <==> IsObsolete in m && m[IsObsolete][0].value)
      && (term.definition == if Def in m then Some(m[Def][0].text) else None)
      && (term.comment == if Comment in m then Some(m[Comment][0].text) else None)
      && (term.createdBy == if CreatedBy in m then Some(m[CreatedBy][0].creator) else None)
      && (term.creationDate == if CreationDate in m then parseDate(m[CreationDate][0].date) else None)
  {
  }

  /** The qualifier of a uPheno relation; this factory only makes `is_a` relations. */
  datatype UphenoRelationQualifier = IsARelation

  /** `UphenoTermRelation`: from the stanza's term to the referenced one. */
  datatype UphenoTermRelation = UphenoTermRelation(source: Option<TermId>, dest: Option<TermId>, id: int, qualifier: UphenoRelationQualifier)

  /** The entries the `constructTermRelation` overloads accept. */
  predicate RelationEntry(e: StanzaEntry) {
    e.IsAEntry? || e.DisjointFromEntry? || e.UnionOfEntry? || e.IntersectionOfEntry? || e.RelationshipEntry?
  }

  class UphenoOboFactory {
    /** The id map `setTermIds` installs; `None` until then. */
    var termIds: Option<map<string, TermId>>
    /** The id the next relation gets. */
    var nextRelationId: int
    /** The ids handed out so far, in order. */
    ghost var issued: seq<int>

    /** Relation ids are handed out in strictly increasing order, all below the counter. */
    ghost predicate Valid()
      reads this
    {
      && nextRelationId >= 1
      && (forall k :: 0 <= k < |issued| ==> 1 <= issued[k] < nextRelationId)
      && (forall a, b :: 0 <= a < b < |issued| ==> issued[a] < issued[b])
    }

    constructor ()
      ensures Valid()
      ensures termIds == None && nextRelationId == 1 && issued == []
    {
      termIds := None;
      nextRelationId := 1;
      issued := [];
    }

    /** `setTermIds`: installs the id map and touches nothing else. */
    method SetTermIds(m: map<string, TermId>)
      requires Valid()
      modifies this
      ensures Valid()
      ensures termIds == Some(m) && nextRelationId == old(nextRelationId) && issued == old(issued)
    {
      termIds := Some(m);
    }

    /**
     * `constructTermRelation`: an `is_a` entry becomes a relation from the
     * stanza's id to the entry's id that takes the current counter value, which
     * then goes up by one; every other relation tag fails and leaves the
     * counter as it was.
     */
    method ConstructTermRelation(stanza: Stanza, entry: StanzaEntry) returns (r: Result<UphenoTermRelation, FactoryError>)
      requires Valid() && WellTyped(stanza) && RelationEntry(entry)
      modifies this
      ensures Valid() && termIds == old(termIds)
      ensures r.Success? <==> entry.IsAEntry? && One(stanza, Id) && termIds.Some?
      ensures !entry.IsAEntry? ==> r == Failure(Unsupported(TypeOf(entry)))
      ensures r.Success? ==>
        && r.value == UphenoTermRelation(Lookup(termIds.value, stanza.entryByType[Id][0].id), Lookup(termIds.value, entry.id), old(nextRelationId), IsARelation)
        && nextRelationId == old(nextRelationId) + 1
        && issued == old(issued) + [r.value.id]
      ensures r.Failure? ==> nextRelationId == old(nextRelationId) && issued == old(issued)
    {
      if !entry.IsAEntry? {
        return Failure(Unsupported(TypeOf(entry)));
      }
      var idEntry := GetCardinalityOneEntry(stanza, Id);
      if idEntry.Failure? {
        return Failure(idEntry.error);
      }
      if termIds.None? {
        return Failure(TermIdsNotSet);
      }
      var sourceId := Lookup(termIds.value, idEntry.value.id);
      var destId := Lookup(termIds.value, entry.id);
      r := Success(UphenoTermRelation(sourceId, destId, nextRelationId, IsARelation));
      issued := issued + [nextRelationId];
      nextRelationId := nextRelationId + 1;
    }
  }
}
