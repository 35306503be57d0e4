/** The content bundle of one syllabus module and the entities inside it.
    Numbers of the source (JavaScript numbers) are modelled as unbounded integers. */
module Types {

  datatype Option<T> = None | Some(value: T)

  /** The two interface languages, 'en' and 'ne'. */
  datatype Language = En | Ne

  datatype ExplainItem = ExplainItem(topic: string, summaryHtml: string)

  datatype AlgorithmItem = AlgorithmItem(name: string, asciiFlow: string)

  datatype CaseItem = CaseItem(title: string, stem: string, questions: seq<string>, teachingPoints: seq<string>)

  datatype DrillKind = ECG | CXR

  datatype ImageDrillItem = ImageDrillItem(kind: DrillKind, prompt: string, modelAnswer: string)

  datatype DentalEmergencyCard = DentalEmergencyCard(condition: string, firstAidSteps: seq<string>, referWhen: seq<string>)

  datatype Marks = Marks(history: int, exam: int, reasoning: int, total: int)

  datatype OsceStation = OsceStation(name: string, checklist: seq<string>, marks: Marks)

  datatype OsceData = OsceData(stations: seq<OsceStation>, globalRating: seq<string>)

  datatype McqItem = McqItem(q: string, options: seq<string>, answerIndex: int, why: string)

  datatype ShortAnswerItem = ShortAnswerItem(q: string, expectedPoints: seq<string>, marks: int)

  datatype SyllabusModule = SyllabusModule(
    moduleTitle: string,
    language: Language,
    outcomes: seq<string>,
    explain: seq<ExplainItem>,
    algorithms: seq<AlgorithmItem>,
    cases: seq<CaseItem>,
    imageDrills: seq<ImageDrillItem>,
    dentalEmergencyCards: seq<DentalEmergencyCard>,
    osce: OsceData,
    quizMcq: seq<McqItem>,
    quizShort: seq<ShortAnswerItem>,
    reflection: seq<string>,
    referencesNote: string,
    version: string)

  /** A multiple-choice item as the quiz view and the CSV export expect it:
      exactly four options and a correct index that points at one of them. */
  predicate WellFormedMcq(item: McqItem) {
    |item.options| == 4 && 0 <= item.answerIndex < 4
  }

  /** The conventional marks breakdown: the total is the sum of the three parts. */
  predicate MarksAddUp(m: Marks) {
    m.total == m.history + m.exam + m.reasoning
  }

  /** Explanation topics serve as list keys, so no two entries share one. */
  predicate DistinctTopics(items: seq<ExplainItem>) {
    forall i, j :: 0 <= i < j < |items| ==> items[i].topic != items[j].topic
  }

  /** The structural invariants every bundle the content provider serves satisfies. */
  predicate WellFormedBundle(m: SyllabusModule) {
    && (forall i :: 0 <= i < |m.quizMcq| ==> WellFormedMcq(m.quizMcq[i]))
    && (forall i :: 0 <= i < |m.osce.stations| ==> MarksAddUp(m.osce.stations[i].marks))
    && (forall i :: 0 <= i < |m.quizShort| ==> m.quizShort[i].marks == |m.quizShort[i].expectedPoints|)
    && DistinctTopics(m.explain)
  }
}
