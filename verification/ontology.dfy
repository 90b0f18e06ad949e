/** The messages the manager agent receives, already decoded from their content
    language. The classifier ontology classes are not part of this model; only the
    attributes the manager agent reads are kept. */
module Ontology {

  datatype Option<T> = None | Some(value: T)

  /** A classifier's announced configuration (`ddm.ontology.ClassifierSettings`). */
  datatype ClassifierSettings = ClassifierSettings(name: string, classifierType: string, options: string)

  /** A classifier's report after training (`ddm.ontology.TrainingResult`):
      the getters `getName`, `getType` and `getDuration` the manager prints. */
  datatype TrainingResult = TrainingResult(name: string, resultType: string, duration: int)

  /** The ACL performative of a received message. */
  datatype Performative = Inform | NotUnderstood | OtherPerformative

  /** The concept inside the `Action` the content manager extracts from a message. */
  datatype Concept =
    | SettingsConcept(settings: ClassifierSettings)
    | ResultConcept(result: TrainingResult)
    | OtherConcept

  /** A received ACL message: its performative, the local name of its sender and
      its decoded content. */
  datatype Message = Message(performative: Performative, sender: string, concept: Concept)

  /** The two kinds of reply the manager counts. */
  datatype Kind = SettingsKind | ResultKind {
    function Other(): (k: Kind)
      ensures k != this
    {
      if this == SettingsKind then ResultKind else SettingsKind
    }
  }

  /** `m` is an INFORM reply of kind `kind`, the only messages that move a counter. */
  predicate IsReply(m: Message, kind: Kind)
  {
    m.performative == Inform &&
    match kind
    case SettingsKind => m.concept.SettingsConcept?
    case ResultKind => m.concept.ResultConcept?
  }

  /** The number of replies of kind `kind` in `ms`. */
  function Replies(ms: seq<Message>, kind: Kind): nat
  {
    if ms == [] then 0 else (if IsReply(ms[0], kind) then 1 else 0) + Replies(ms[1..], kind)
  }

  /** `m` carries settings from the classifier named `k`. */
  predicate SettingsFrom(m: Message, k: string)
  {
    IsReply(m, SettingsKind) && m.sender == k
  }
}
