/** The content provider: a fixed bundle for the respiratory-system module and a
    placeholder bundle for every other module.

    The fixed bundle mirrors the constant `respiratorySystemData` of the content
    provider (services/geminiService.ts): every list has the length it has there, and
    the answer indices, the marks, the explanation topics, the case titles, the card
    conditions and the rating labels are its values. Prose (HTML summaries, stems,
    questions, options, rationales, checklist steps, ...) is replaced by a stand-in. */
module Provider {
  import opened Types

  const RespiratorySystem := "Respiratory System"

  /** Stand-in for a piece of prose of the fixed bundle. */
  const Prose := "..."

  /** `n` pieces of prose. */
  function Proses(n: nat): (r: seq<string>)
    ensures |r| == n
  {
    seq(n, _ => Prose)
  }

  function RespiratoryExplain(): (r: seq<ExplainItem>)
    ensures |r| == 5 && DistinctTopics(r)
  {
    [ ExplainItem("Pneumonia", Prose),
      ExplainItem("Chronic Obstructive Pulmonary Disease (COPD)", Prose),
      ExplainItem("Pulmonary Tuberculosis", Prose),
      ExplainItem("Bronchial Asthma", Prose),
      ExplainItem("Lung Cancer", Prose) ]
  }

  function RespiratoryCases(): (r: seq<CaseItem>)
    ensures |r| == 2
    ensures forall i :: 0 <= i < |r| ==> |r[i].questions| == 4 && |r[i].teachingPoints| == 4
  {
    [ CaseItem("Case 1: Elderly Smoker with Fever", Prose, Proses(4), Proses(4)),
      CaseItem("Case 2: Young Adult with Chronic Cough", Prose, Proses(4), Proses(4)) ]
  }

  function RespiratoryOsce(): (o: OsceData)
    ensures |o.stations| == 1 && |o.stations[0].checklist| == 10
    ensures forall i :: 0 <= i < |o.stations| ==> MarksAddUp(o.stations[i].marks)
    ensures |o.globalRating| == 4
  {
    OsceData(
      [OsceStation("Respiratory System Examination", Proses(10), Marks(0, 15, 5, 20))],
      ["Unsatisfactory", "Borderline", "Meets Expectations", "Exceeds Expectations"])
  }

  /** One multiple-choice item of the fixed bundle: four options and the answer index. */
  function Mcq(answerIndex: int): (item: McqItem)
    requires 0 <= answerIndex < 4
    ensures WellFormedMcq(item) && item.answerIndex == answerIndex
  {
    McqItem(Prose, Proses(4), answerIndex, Prose)
  }

  function RespiratoryMcqs(): (r: seq<McqItem>)
    ensures |r| == 12
    ensures forall i :: 0 <= i < |r| ==> WellFormedMcq(r[i])
  {
    [Mcq(2), Mcq(1), Mcq(2), Mcq(1), Mcq(1), Mcq(1), Mcq(2), Mcq(2), Mcq(2), Mcq(1), Mcq(3), Mcq(2)]
  }

  function RespiratoryShortAnswers(): (r: seq<ShortAnswerItem>)
    ensures |r| == 4
    ensures forall i :: 0 <= i < |r| ==> r[i].marks == |r[i].expectedPoints|
  {
    [ ShortAnswerItem(Prose, Proses(4), 4),
      ShortAnswerItem(Prose, Proses(3), 3),
      ShortAnswerItem(Prose, Proses(4), 4),
      ShortAnswerItem(Prose, Proses(2), 2) ]
  }

  /** The fixed respiratory-system bundle. */
  function RespiratorySystemData(): (m: SyllabusModule)
    ensures m.moduleTitle == RespiratorySystem && m.language == En
    ensures WellFormedBundle(m)
    ensures |m.quizMcq| == 12 && |m.quizShort| == 4 && |m.explain| == 5 && |m.cases| == 2
    ensures |m.osce.stations| == 1 && m.osce.stations[0].marks.total == 20
  {
    SyllabusModule(
      RespiratorySystem,
      En,
      Proses(3),
      RespiratoryExplain(),
      [AlgorithmItem("Approach to Acute Dyspnoea in a Dental Clinic", Prose)],
      RespiratoryCases(),
      [ImageDrillItem(CXR, Prose, Prose), ImageDrillItem(CXR, Prose, Prose)],
      [ DentalEmergencyCard("Acute Asthma Exacerbation", Proses(5), Proses(4)),
        DentalEmergencyCard("Foreign Body Aspiration", Proses(5), Proses(2)) ],
      RespiratoryOsce(),
      RespiratoryMcqs(),
      RespiratoryShortAnswers(),
      Proses(3),
      Prose,
      "1.0")
  }

  /** generateModuleContent without its log line and its simulated delay: the fixed
      bundle for the respiratory-system module, whatever language is asked for, and a
      placeholder bundle with a single outcome and no other content for any other module. */
  function GenerateModuleContent(moduleName: string, language: Language): (m: SyllabusModule)
    ensures m.moduleTitle == moduleName
    ensures m.language == if moduleName == RespiratorySystem then En else language
    ensures WellFormedBundle(m)
    ensures moduleName == RespiratorySystem ==> m == RespiratorySystemData()
    ensures moduleName != RespiratorySystem ==>
      && m.outcomes == ["Content for " + moduleName + " is not yet available."]
      && m.explain == [] && m.algorithms == [] && m.cases == [] && m.imageDrills == []
      && m.dentalEmergencyCards == [] && m.osce.stations == [] && m.osce.globalRating == []
      && m.quizMcq == [] && m.quizShort == [] && m.reflection == []
  {
    if moduleName == RespiratorySystem then
      RespiratorySystemData()
    else
      SyllabusModule(
        moduleName, language,
        ["Content for " + moduleName + " is not yet available."],
        [], [], [], [], [],
        OsceData([], []),
        [], [], [],
        "Content generation is pending.",
        "1.0")
  }
}
