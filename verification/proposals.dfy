/** `ProposalGenerator`: three fixed proposal templates and the list of saved
    proposal drafts. */
module Proposals {
  import opened Basics
  import opened Json
  import Text

  /** `getProposalTemplates()`, keyed by template name. */
  const Templates: map<string, Record> := map[
    "documentation" := map[
      "title" := JStr("Streamlining Documentation Requirements"),
      "problem" := JStr("Current documentation requirements are excessive and repetitive, taking valuable time away from actual teaching and learning."),
      "solution" := JStr("Implement a unified digital documentation system with automated reporting features to reduce manual paperwork by 60%.")],
    "inspection" := map[
      "title" := JStr("Reforming Inspection Frequency and Process"),
      "problem" := JStr("Multiple overlapping inspections throughout the year create a perpetual state of preparation mode, disrupting academic calendar."),
      "solution" := JStr("Coordinate all regulatory inspections into a single comprehensive annual review with standardized criteria.")],
    "teaching" := map[
      "title" := JStr("Protecting Teaching Time and Academic Freedom"),
      "problem" := JStr("Excessive compliance requirements are reducing actual teaching hours and constraining pedagogical innovation."),
      "solution" := JStr("Establish protected teaching time blocks where compliance activities are prohibited, ensuring minimum contact hours with students.")]
  ]

  const Generated: set<string> := {"id", "createdDate", "status"}

  /** `generateFromTemplate(templateKey, customizations)`: `null` for an
      unknown template; otherwise the template, overridden by the
      customizations, overridden by a fresh id, date and `draft` status. */
  function GenerateFromTemplate(key: string, customizations: Record, now: int, isoNow: string): (r: Option<Record>)
    ensures r.None? <==> key !in Templates
    ensures r.Some? ==> r.value.Keys == Templates[key].Keys + customizations.Keys + Generated
    ensures r.Some? ==> r.value["id"] == JNum(now)
    ensures r.Some? ==> r.value["createdDate"] == JStr(Text.BeforeT(isoNow))
    ensures r.Some? ==> r.value["status"] == JStr("draft")
    ensures r.Some? ==> forall k :: k in customizations && k !in Generated ==> r.value[k] == customizations[k]
    ensures r.Some? ==> forall k :: (k in Templates[key] && k !in customizations && k !in Generated
                                     ==> r.value[k] == Templates[key][k])
  {
    if key !in Templates then None
    else Some(Spread(Spread(Templates[key], customizations),
                     map["id" := JNum(now),
                         "createdDate" := JStr(Text.BeforeT(isoNow)),
                         "status" := JStr("draft")]))
  }

  /** Exactly the three template names resolve; the teaching template
      keeps its title when not customised. */
  lemma KnownTemplates(key: string, now: int, isoNow: string)
    ensures GenerateFromTemplate(key, map[], now, isoNow).Some?
        <==> key == "documentation" || key == "inspection" || key == "teaching"
    ensures GenerateFromTemplate("teaching", map[], now, isoNow).Some?
    ensures Get(GenerateFromTemplate("teaching", map[], now, isoNow).value, "title")
         == Some(JStr("Protecting Teaching Time and Academic Freedom"))
  {
    assert Templates.Keys == {"documentation", "inspection", "teaching"};
    assert Templates["teaching"]["title"] == JStr("Protecting Teaching Time and Academic Freedom");
  }

  /** `saveProposal(proposalData)`'s record: a draft with one supporter. */
  function NewProposal(data: Record, now: int, isoNow: string): (p: Record)
    ensures p.Keys == data.Keys + {"id", "createdDate", "status", "supporters"}
    ensures p["id"] == (if "id" in data then data["id"] else JNum(now))
    ensures p["createdDate"] == JStr(Text.BeforeT(isoNow))
    ensures p["status"] == JStr("draft") && p["supporters"] == JNum(1)
    ensures forall k :: k in data && k !in {"id", "createdDate", "status", "supporters"} ==> p[k] == data[k]
  {
    Spread(Spread(map["id" := JNum(now)], data),
           map["createdDate" := JStr(Text.BeforeT(isoNow)),
               "status" := JStr("draft"),
               "supporters" := JNum(1)])
  }

  /** `saveProposal`: appended at the end. */
  function SaveProposal(proposals: seq<Record>, data: Record, now: int, isoNow: string): (r: seq<Record>)
    ensures |r| == |proposals| + 1 && r[..|proposals|] == proposals
    ensures r[|proposals|] == NewProposal(data, now, isoNow)
  {
    proposals + [NewProposal(data, now, isoNow)]
  }
}
