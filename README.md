# GM Tutor core, modelled in Dafny

GM Tutor is a study tool for health-sciences students. A learner picks a syllabus
module and a language. The content provider returns a bundle for that module:
explanations, cases, OSCE stations and a quiz. The learner reads the bundle, searches
it, takes the quiz, exports it as CSV and asks an AI assistant about it.

This project models the logic under the user interface, one Dafny module per concern:

- `Types` (`types.dfy`): the bundle and its parts, as in `types.ts`, and the structural
  invariants the views rely on. Each multiple-choice item has four options and an answer
  index in range. OSCE marks add up. Short-answer marks match their expected points.
  Explanation topics are distinct.
- `Text` (`text.dfy`): the JavaScript string operations used by the core: `toLowerCase`,
  `includes`, the `\s` class, the regular-expression line terminators, `join`, and a
  count of occurrences.
- `Provider` (`provider.dfy`): `generateModuleContent`. It returns the fixed
  respiratory-system bundle, or a placeholder bundle for any other module.
- `ContentFilter` (`content_filter.dfy`): the search filter of the application shell.
  `Array.filter` is proved to keep exactly the matching entries, in order.
- `AppView` (`app.dfy`): the application shell as a class. It covers the first render
  from the persisted preferences, module selection, the tab and search setters, one
  completed content load, and the render precedence of the main pane.
- `Quiz` (`quiz.dfy`): the quiz as a class over a persistent answer store keyed per
  module. It covers option selection, submission (the counting loop), reset and the
  reload when another module is shown, plus the per-option styling rules.
- `Csv` (`csv.dfy`): the comma-separated format the export writes. Fields are quoted
  with doubled quotes, or bare. Fields are joined by commas and records by line feeds. A
  reader for the format is proved to recover every encoded document that has at least
  one record, at least one field in every record, and no comma, line feed or quote in
  any bare field. The quiz export meets these conditions.
- `Sidebar` (`sidebar.dfy`): the quiz CSV export, the download file names and the
  language switch.
- `Markdown` (`markdown.dfy`): the chat panel's three global replacements: `**bold**`,
  then `*italic*`, then line feeds.
- `Chat` (`chat.dfy`): the chat panel as a class. It covers session start and one
  message exchange, with the streamed reply given as its chunks and the point where the
  stream fails, if any.

The remote model, the browser and the clock are not modelled. The reply stream is an
input: the chunks that arrive and the point at which the stream fails. A failed content
request is a boolean input. The browser's local storage is the `Quiz.AnswerStore` class.
The stored preferences are constructor arguments.

## Model

| member | source | states |
|---|---|---|
| Text.LowerChar | App.tsx:59 | an ASCII capital maps to its small letter, 32 code points up; every other character is unchanged |
| Text.Lower | App.tsx:59-66 | lower-casing keeps the length and maps each character on its own |
| Text.LowerIdempotent | App.tsx:59-66 | lower-casing an already lower-cased string changes nothing |
| Text.Contains | App.tsx:62-66 | `includes`: the needle is a prefix of the string or of one of its tails; a string never contains a longer needle |
| Text.ContainsAt | App.tsx:62-66 | `includes` holds exactly when the needle occurs at some index of the string |
| Text.ContainsGivesPosition | App.tsx:62-66 | when `includes` holds, an index where the needle occurs exists |
| Text.PositionGivesContains | App.tsx:62-66 | an occurrence at any index makes `includes` hold |
| Text.Count | components/Chatbot.tsx:14 | the count of a character is at most the length, and is zero exactly when the character is absent |
| Text.CountAppend | components/Chatbot.tsx:14 | counting a concatenation adds the counts of its parts |
| Text.Join | components/Sidebar.tsx:70-71 | joining one part gives that part; joining none gives the empty string |
| Text.IsJsWhitespace | components/Sidebar.tsx:74 | the `\s` class (also at components/Sidebar.tsx:55), and the set `trim` strips at components/Chatbot.tsx:68: every line terminator belongs to it and `_` does not, so the filename stem has no whitespace left |
| Text.IsLineTerminator | components/Chatbot.tsx:10-12 | the characters the regular-expression `.` refuses: the line feed is one of them and `*` is not |
| Provider.RespiratoryExplain | services/geminiService.ts:12-33 | five explanation entries with pairwise distinct topics |
| Provider.RespiratoryCases | services/geminiService.ts:40-73 | two cases, each with four questions and four teaching points |
| Provider.RespiratoryOsce | services/geminiService.ts:118-143 | one station with ten checklist items whose marks add up to the total, and four rating labels |
| Provider.Mcq | services/geminiService.ts:144-217 | a question of the fixed bundle has four options and keeps its answer index in range |
| Provider.RespiratoryMcqs | services/geminiService.ts:144-217 | twelve questions, each with four options and an answer index between 0 and 3 |
| Provider.RespiratoryShortAnswers | services/geminiService.ts:218-256 | four short-answer items, each worth as many marks as it has expected points |
| Provider.RespiratorySystemData | services/geminiService.ts:4-264 | the fixed bundle is titled "Respiratory System", is in English and satisfies every structural invariant; it has 12 questions, 4 short answers, 5 explanations, 2 cases and one station worth 20 marks |
| Provider.GenerateModuleContent | services/geminiService.ts:276-306 | the title is the requested module; "Respiratory System" yields the fixed bundle in English whatever language is asked for; any other module yields the requested language, a single "not yet available" outcome and no other content; every result is well formed |
| ContentFilter.Filter | App.tsx:61-67 | an element is kept exactly when it is in the input and passes the test, and the result is a subsequence of the input |
| ContentFilter.FilterMultiplicity | App.tsx:61-67 | each kept element occurs as often as in the input, each dropped element not at all |
| ContentFilter.FilterKeepsAll | App.tsx:61-67 | a filter every element passes returns its input |
| ContentFilter.SubsequenceMembers | App.tsx:61-67 | every element of a subsequence is in the whole |
| ContentFilter.SubsequenceKeepsTopicsDistinct | App.tsx:61-63 | leaving explanation entries out keeps their topics distinct |
| ContentFilter.TopicMatches | App.tsx:62 | an explanation entry matches when its lower-cased topic contains the needle |
| ContentFilter.CaseMatches | App.tsx:66 | a case matches when its lower-cased title or its lower-cased stem contains the needle |
| ContentFilter.FilterModuleData | App.tsx:55-74 | with no term or no data the input comes back unchanged; otherwise only the explanations and the cases change, and they are the subsequences whose topic, or title or stem, contains the lower-cased term case-insensitively |
| ContentFilter.FilterIdempotent | App.tsx:55-74 | filtering a filtered bundle again with the same term changes nothing |
| ContentFilter.FilterSeesLowercaseOnly | App.tsx:59 | the result is the same for the term and for its lower-cased form |
| ContentFilter.FilterKeepsWellFormed | App.tsx:69-73 | the filtered bundle keeps every structural invariant of the input |
| AppView.Truthy | App.tsx:80 | an error is shown only when it is present and not the empty string |
| AppView.RenderContent | App.tsx:76-95 | loading shows the spinner; otherwise a non-empty error shows that error; otherwise missing data shows the no-content message; otherwise the tab picks the OSCE, quiz or learn view, which receives the bundle (or its OSCE part) |
| AppView.AppState.constructor | App.tsx:16-25 | the module and language come from the stored preferences, defaulting to "Respiratory System" and English; the view opens on the learn tab, loading, with no error, data or search |
| AppView.AppState.HandleModuleSelect | App.tsx:49-53 | selecting a module sets it, returns to the learn tab and clears the search, changing nothing else |
| AppView.AppState.SetLanguage | App.tsx:104 | the language switch sets the selected language |
| AppView.AppState.SetActiveTab | App.tsx:106 | a tab button sets the active tab |
| AppView.AppState.SetSearchTerm | App.tsx:113 | the search box sets the search term |
| AppView.AppState.LoadSelection | App.tsx:27-47 | both preferences are persisted and loading ends; success stores the provider's bundle for the selection with no error; failure sets the fixed error and keeps the previous bundle; the tab and the search stay |
| AppView.AppState.Content | App.tsx:55-95 | the quiz and learn views receive the filtered bundle, which is well formed; with no loading and no error, loaded data on the quiz tab shows the quiz |
| Quiz.AnswerStore.constructor | components/QuizView.tsx:60 | the store starts empty |
| Quiz.AnswerStore.Write | components/QuizView.tsx:76 | writing replaces the answers under one key and leaves every other key alone |
| Quiz.AnswerStore.Read | components/QuizView.tsx:60 | a stored key reads back its answers; a key never written reads as the empty answer map `{}` |
| Quiz.AnswersKey | components/QuizView.tsx:60 | the key is the prefix `quizAnswers_` followed by the module title |
| Quiz.AnswersKeyInjective | components/QuizView.tsx:60 | two modules with different titles never share a key |
| Quiz.IsCorrectAt | components/QuizView.tsx:82 | a question counts when an option is recorded for it and that option is the right one |
| Quiz.CountCorrect | components/QuizView.tsx:79-85 | the number of correct answers among the first n questions is at most n |
| Quiz.CountCorrectIsCardinality | components/QuizView.tsx:79-85 | the count equals the size of the set of questions answered with their right option |
| Quiz.FullScoreIffAllCorrect | components/QuizView.tsx:79-85 | the score is full exactly when every question is answered correctly |
| Quiz.AnsweredBoundsScore | components/QuizView.tsx:80-85 | unanswered questions never count: the score is at most the number of answered questions |
| Quiz.SubsetCardinality | components/QuizView.tsx:80-85 | helper of Quiz.AnsweredBoundsScore: a subset is no larger than the set that contains it |
| Quiz.ClassifyOption | components/QuizView.tsx:21-37 | after submission the right option is marked right, and the learner's wrong option is marked wrong; before submission only the learner's option is highlighted |
| Quiz.RationaleAgreesWithScore | components/QuizView.tsx:15-53 | the rationale is shown as correct exactly when the question counts towards the score |
| Quiz.Selected | components/QuizView.tsx:121 | `answers[index] ?? null`: an option exactly when the question was answered, and then the stored option |
| Quiz.RationaleIsGreen | components/QuizView.tsx:15-50 | `isCorrect`: the rationale is green only for an answered question with a non-negative answer index; RationaleAgreesWithScore ties it to the score |
| Quiz.SubmittedMarks | components/QuizView.tsx:23-30 | after submission at most one option is marked wrong and one marked right, and a correctly answered question has no option marked wrong |
| Quiz.HasQuiz | components/QuizView.tsx:97-99 | the quiz pane shows questions when the bundle has a multiple-choice or a short-answer question |
| Quiz.QuizAvailability | components/QuizView.tsx:97-99 | a provider bundle has a quiz exactly when it is the respiratory-system bundle |
| Quiz.QuizSession.constructor | components/QuizView.tsx:60-64 | the quiz opens on the answers stored under the module's key, unsubmitted, scoring 0 |
| Quiz.QuizSession.HandleSelectAnswer | components/QuizView.tsx:73-77 | the chosen option is recorded for the question, every other question keeps its answer, and the store holds the new answers under the module's key |
| Quiz.QuizSession.ClickOption | components/QuizView.tsx:40 | after submission a click changes neither the answers nor the store; before it, the click records the option and the store changes only under the module's key; the module and its questions stay |
| Quiz.QuizSession.Submit | components/QuizView.tsx:79-88 | the quiz is submitted and the score is the number of questions whose recorded option is the right one, never above the number of questions |
| Quiz.QuizSession.HandleReset | components/QuizView.tsx:90-95 | the answers are cleared on screen and in the store, and the quiz is unsubmitted with score 0 |
| Quiz.QuizSession.ReloadForModule | components/QuizView.tsx:66-71 | showing another module reads its stored answers, and the quiz starts unsubmitted with score 0 |
| Quiz.SubmitTwice | components/QuizView.tsx:79-88 | submitting twice gives the same score, because submission leaves the answers alone |
| Quiz.LeaveAndReturn | components/QuizView.tsx:60-71 | after the learner leaves, resets the other module's quiz and returns, the answers are restored but the submission is not |
| Csv.DoubleQuotes | components/Sidebar.tsx:63 | every quote doubled; its meaning is given by Csv.DoubleQuotesLength, Csv.DoubleQuotesPlain and Csv.QuotedRoundTrip |
| Csv.DoubleQuotesPlain | components/Sidebar.tsx:63 | a text without quotes is left as it is |
| Csv.EncodeCell | components/Sidebar.tsx:63-69 | a quoted field is wrapped in quotes; a bare field is written as it is |
| Csv.EncodeRecord | components/Sidebar.tsx:70 | a record of one field is that field; Csv.RecordRoundTrip states what the record holds in general |
| Csv.EncodeDocument | components/Sidebar.tsx:71 | a document of one record is that record; Csv.DocumentRoundTrip states what the document holds in general |
| Csv.DoubleQuotesLength | components/Sidebar.tsx:63 | doubling the quotes lengthens a text by one character per quote |
| Csv.Texts | components/Sidebar.tsx:62-70 | the texts of a row are its fields' texts, in order |
| Csv.ParseBare | components/Sidebar.tsx:68 | a bare field is read up to the next comma or line feed, and nothing is lost |
| Csv.ParseRecords | components/Sidebar.tsx:71 | every record read has at least one field |
| Csv.QuotedRoundTrip | components/Sidebar.tsx:63-69 | reading a quoted field undoes the doubled quotes and stops right after the closing quote |
| Csv.BareRoundTrip | components/Sidebar.tsx:68 | a bare field without separators is read back as it was written |
| Csv.FieldRoundTrip | components/Sidebar.tsx:62-70 | any valid field followed by a separator, or by nothing, is read back as its text |
| Csv.FieldThenEnd | components/Sidebar.tsx:70-71 | the last field of a record ends the record |
| Csv.FieldThenComma | components/Sidebar.tsx:70 | a field followed by a comma starts a record that the following fields continue |
| Csv.RecordRoundTrip | components/Sidebar.tsx:62-70 | a record is read back as the texts of its fields |
| Csv.DocumentRoundTrip | components/Sidebar.tsx:71 | reading an encoded document gives back, record by record, the texts of its fields |
| Csv.DigitChar | components/Sidebar.tsx:68 | helper of Csv.Digits: one decimal digit character has the value of its digit |
| Csv.Digits | components/Sidebar.tsx:68 | a number is written as decimal digits without leading zeros |
| Csv.DigitsRoundTrip | components/Sidebar.tsx:68 | reading the digits of a number back gives the number |
| Csv.Decimal | components/Sidebar.tsx:68 | an integer is written as an optional minus sign and its digits, with no separator or quote |
| Sidebar.Toggled | components/Sidebar.tsx:133 | the switch always changes the language |
| Sidebar.ToggleTwice | components/Sidebar.tsx:133 | switching twice restores the language |
| Sidebar.FilenameStem | components/Sidebar.tsx:55 | the stem is as long as the title and holds no whitespace: each whitespace character of the title became `_` and every other character is kept |
| Sidebar.StemOfPlainTitle | components/Sidebar.tsx:74 | a title without whitespace is its own stem |
| Sidebar.CsvFilename | components/Sidebar.tsx:74 | the CSV file name is the title's stem followed by `_quiz.csv` |
| Sidebar.ExportJsonName | components/Sidebar.tsx:48-57 | a JSON file is offered exactly when a module is loaded, named after the title's stem |
| Sidebar.HeaderCells | components/Sidebar.tsx:61 | the header line is the seven column names, unquoted |
| Sidebar.HeaderCellsValid | components/Sidebar.tsx:61 | no column name needs quoting |
| Sidebar.HeaderTexts | components/Sidebar.tsx:61 | the header reads back as the seven column names |
| Sidebar.McqCells | components/Sidebar.tsx:62-70 | a question's row has seven fields; the answer index is bare in sixth place and every other field is quoted |
| Sidebar.AllHaveFourOptions | components/Sidebar.tsx:64-67 | the condition under which reading four options of every question does not throw; well-formed questions always meet it |
| Sidebar.McqRowTexts | components/Sidebar.tsx:62-70 | a question's row reads back as its question, its first four options, its answer index and its explanation |
| Sidebar.McqRecords | components/Sidebar.tsx:62-70 | one row per question, in order |
| Sidebar.RecordsEncodable | components/Sidebar.tsx:61-71 | every row of the export can be read back |
| Sidebar.TextsOfRecords | components/Sidebar.tsx:61-71 | the texts of a document are its rows' texts, in order |
| Sidebar.QuizCsv | components/Sidebar.tsx:61-71 | the header record then one record per question, as a document; its content is stated by Sidebar.QuizCsvRoundTrip |
| Sidebar.QuizCsvRoundTrip | components/Sidebar.tsx:59-76 | reading the exported document back gives the header followed by each question's texts, in order |
| Sidebar.ExportQuizCsv | components/Sidebar.tsx:59-76 | no download without a module or without questions; a question with fewer than four options makes the export throw; otherwise the download is named after the title's stem and carries the quiz document |
| Sidebar.ProviderBundlesExport | components/Sidebar.tsx:59-76 | the respiratory-system bundle exports as a download, and a placeholder bundle exports nothing |
| Markdown.ReplacePairs | components/Chatbot.tsx:10-12 | the left-to-right scan of one delimited replacement; stated by Markdown.ReplacePairsAtPair, Markdown.ReplacePairsNoMatch, Markdown.ReplacePairsKeepsNewlines and Markdown.PairRun |
| Markdown.MarkdownToHtml | components/Chatbot.tsx:8-16 | bold, then italic, then line feeds; the HTML holds no line feed |
| Markdown.FindCloser | components/Chatbot.tsx:10 | a closing delimiter found lies inside the text |
| Markdown.FindCloserSound | components/Chatbot.tsx:10 | the closing delimiter found is really there, and the run before it holds no line terminator |
| Markdown.FindCloserIsFirst | components/Chatbot.tsx:10 | the lazy match takes the first closing delimiter, and when none is found no delimiter closes the run on that line |
| Markdown.ReplaceNewlines | components/Chatbot.tsx:14 | every line feed replaced; stated by the three rows that follow |
| Markdown.ReplaceNewlinesShape | components/Chatbot.tsx:14 | the output has no line feed, and each line feed became five characters more |
| Markdown.ReplaceNewlinesChar | components/Chatbot.tsx:14 | a line feed becomes `<br />`, any other character is kept |
| Markdown.ReplaceNewlinesAppend | components/Chatbot.tsx:14 | the replacement works piece by piece, so with the previous row each line feed of a text becomes one `<br />` and nothing else changes |
| Markdown.ReplacePairsNoMatch | components/Chatbot.tsx:10-12 | text in which the delimiter never occurs is left alone |
| Markdown.ReplacePairsNoDelimiter | components/Chatbot.tsx:12 | text without the delimiter's first character is left alone |
| Markdown.PairSplit | components/Chatbot.tsx:10-12 | helper of Markdown.ReplacePairsKeepsNewlines: a matched pair splits the text into delimiter, run, delimiter and rest |
| Markdown.CountFour | components/Chatbot.tsx:10-14 | helper of Markdown.ReplacePairsKeepsNewlines: line feeds are counted part by part |
| Markdown.NoLineTerminatorHasNoNewline | components/Chatbot.tsx:10-12 | helper of Markdown.ReplacePairsKeepsNewlines and Markdown.BoldRun: a run without line terminators holds no line feed |
| Markdown.ReplacePairsAtPair | components/Chatbot.tsx:10-12 | where a pair matches, it is replaced by the tags around its run and the scan resumes after it |
| Markdown.ReplacePairsKeepsNewlines | components/Chatbot.tsx:10-12 | the bold and italic replacements neither add nor remove a line feed |
| Markdown.NewlinesBecomeBreaks | components/Chatbot.tsx:8-16 | the HTML has no line feed; the bold and italic passes keep every line feed of the input, and the HTML is five characters longer per line feed than the text they produce |
| Markdown.PlainTextUnchanged | components/Chatbot.tsx:8-16 | text without asterisks and line feeds is shown as it is |
| Markdown.NoNewlineUnchanged | components/Chatbot.tsx:14 | text without line feeds has nothing to replace |
| Markdown.CloserAfterInline | components/Chatbot.tsx:10-12 | after a run without asterisks or line terminators, the closing delimiter is found right after the run |
| Markdown.PairRun | components/Chatbot.tsx:10-12 | a delimited run on one line becomes the tags around it |
| Markdown.ItalicRunHasNoBold | components/Chatbot.tsx:10 | an italic run contains no bold pair |
| Markdown.BoldRun | components/Chatbot.tsx:8-16 | `**x**` becomes `<strong>x</strong>` for a run x without asterisks or line terminators |
| Markdown.ItalicRun | components/Chatbot.tsx:8-16 | `*x*` becomes `<em>x</em>` for a run x without asterisks or line terminators |
| Chat.Greeting | components/Chatbot.tsx:55 | the greeting names the module: the opening words, then the title between double quotes at index 38, 73 characters besides the title |
| Chat.IsBlank | components/Chatbot.tsx:68 | the input is blank when every character is whitespace that `trim` removes |
| Chat.Delivered | components/Chatbot.tsx:77-88 | the chunks that arrive are a prefix of the stream: all of them, none when sending fails, or as many as arrived before the failure |
| Chat.Concat | components/Chatbot.tsx:82 | the chunks are run together in order |
| Chat.ConcatAppend | components/Chatbot.tsx:81-88 | running together two runs of chunks is running together each |
| Chat.StreamingOnlyExtends | components/Chatbot.tsx:81-88 | while the reply streams in, the model's turn only grows |
| Chat.DropLast | components/Chatbot.tsx:93 | removing the last message keeps everything before it |
| Chat.Streaming | components/Chatbot.tsx:79-87 | during the stream the transcript is the earlier messages, the user's turn and the model's turn holding the chunks so far |
| Chat.AfterExchange | components/Chatbot.tsx:70-93 | the earlier transcript is always kept; success adds the user's turn and the whole reply; a failure at send leaves the transcript as it was; a later failure keeps the user's turn and drops the partial reply |
| Chat.ChatPanel.constructor | components/Chatbot.tsx:29-34 | the panel starts with no messages, no input, no error, not loading and without a session |
| Chat.ChatPanel.InitSession | components/Chatbot.tsx:42-64 | without data or title nothing happens; otherwise the transcript becomes the single greeting naming the module, or, when creating the session throws, empty with the fixed error |
| Chat.ChatPanel.SetInput | components/Chatbot.tsx:30 | typing sets the input |
| Chat.ChatPanel.HandleSendMessage | components/Chatbot.tsx:66-97 | a blank input, an exchange in flight or a missing session changes nothing; otherwise the transcript becomes the outcome of the exchange, the input is cleared, loading ends, and the error is set exactly when the stream failed |

## Left out

- The user interface: all JSX, styling, collapsible cards, drill toggles and the views
  in `components/LearnView.tsx`, `components/OsceView.tsx`, `components/Header.tsx` and
  `components/LoadingSpinner.tsx`. Only the decisions the views take are modelled.
- The remote model's client library (session creation, `sendMessageStream`) and the
  system instruction built from the bundle. The reply is an input of chunks and a
  failure point. A failure while creating the session is a boolean input.
- The browser storage hook, which is not part of this model. It is the
  `Quiz.AnswerStore` class and the constructor arguments of `AppView.AppState`. JSON
  parsing and its fallbacks are not modelled.
- Browser effects: the `data:` URL prefixes, `encodeURI`/`encodeURIComponent`,
  `JSON.stringify` of the JSON export, the anchor click, `window.print` and scrolling.
  `Sidebar.ExportJsonName` gives only the file name.
- Timing: the provider's log line and 500 ms delay, and the stale-fetch race when the
  selection changes during a load. `AppView.AppState.LoadSelection` runs one load to
  completion.
- Console output: the `console.error` calls of the content load and of the chat panel.
- Numbers: the answer index, the marks and the score are JavaScript numbers; the model
  uses unbounded integers, since none of these values comes near the range where
  floating point loses integers.
- The effect scheduling of React. Each handler or effect is one atomic transition, so
  the quiz effect re-running when the stored answers change is not modelled.
- Chat.ChatPanel.HandleSendMessage: `isLoading` is true only inside the exchange, which
  is atomic here. Every chunk is taken to carry text.
- Text.Lower: only ASCII letters are lower-cased; the Unicode case mapping of
  `toLowerCase` is not modelled.
- Provider.RespiratorySystemData: the bundle's prose is replaced by a stand-in string.
  The prose covers the HTML summaries, stems, questions, options, rationales and
  checklist steps. Every list keeps its length, and the answer indices, marks, topics,
  case titles, card conditions and rating labels keep their values.
- The module list in `constants.ts` is not part of this model. Module names are any
  strings.
- Csv.Decimal: JavaScript writes integers from 10^21 upward in exponent form; the model
  always writes all the digits. The bundle's answer indices are single digits.
