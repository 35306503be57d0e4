/** The application shell: which module and language are selected, which view is
    active, what is being searched, and what the main pane shows. */
module AppView {
  import opened Types
  import Provider
  import ContentFilter

  /** The three presentation modes. */
  datatype Tab = Learn | Osce | Quiz

  /** What the main pane renders. */
  datatype View =
    | Spinner
    | ErrorMessage(text: string)
    | NoContent
    | OsceView(osce: OsceData)
    | QuizView(bundle: SyllabusModule)
    | LearnView(bundle: SyllabusModule)

  const FetchError := "Failed to load module content. Please try again later."

  /** JavaScript truthiness of a `string | null`: null and the empty string are false. */
  predicate Truthy(s: Option<string>) {
    s.Some? && s.value != []
  }

  /** `renderContent`: loading first, then an error, then missing data, then the tab. */
  function RenderContent(isLoading: bool, error: Option<string>, data: Option<SyllabusModule>, tab: Tab): (v: View)
    ensures v == Spinner <==> isLoading
    ensures v.ErrorMessage? <==> !isLoading && Truthy(error)
    ensures v.ErrorMessage? ==> v.text == error.value
    ensures v == NoContent <==> !isLoading && !Truthy(error) && data.None?
    ensures !isLoading && !Truthy(error) && data.Some? ==>
      && (v.OsceView? <==> tab == Osce)
      && (v.QuizView? <==> tab == Quiz)
      && (v.LearnView? <==> tab == Learn)
    ensures v.OsceView? ==> v.osce == data.value.osce
    ensures v.QuizView? || v.LearnView? ==> v.bundle == data.value
  {
    if isLoading then Spinner
    else if Truthy(error) then ErrorMessage(error.value)
    else if data.None? then NoContent
    else match tab
      case Osce => OsceView(data.value.osce)
      case Quiz => QuizView(data.value)
      case Learn => LearnView(data.value)
  }

  class AppState {
    /** The two persisted preferences, 'gmTutorModule' and 'gmTutorLanguage'. */
    var storedModule: string
    var storedLanguage: Language

    var currentModuleData: Option<SyllabusModule>
    var selectedModule: string
    var language: Language
    var activeTab: Tab
    var isLoading: bool
    var error: Option<string>
    var searchTerm: string

    /** The loaded bundle always comes from the content provider. */
    ghost predicate Valid()
      reads this
    {
      currentModuleData.Some? ==> WellFormedBundle(currentModuleData.value)
    }

    /** First render: the preferences are read back, falling back to the defaults. */
    constructor(persistedModule: Option<string>, persistedLanguage: Option<Language>)
      ensures Valid()
      ensures storedModule == selectedModule ==
        (if persistedModule.Some? then persistedModule.value else Provider.RespiratorySystem)
      ensures storedLanguage == language == (if persistedLanguage.Some? then persistedLanguage.value else En)
      ensures currentModuleData.None? && activeTab == Learn && isLoading && error.None? && searchTerm == []
    {
      storedModule := if persistedModule.Some? then persistedModule.value else Provider.RespiratorySystem;
      storedLanguage := if persistedLanguage.Some? then persistedLanguage.value else En;
      selectedModule := storedModule;
      language := storedLanguage;
      currentModuleData := None;
      activeTab := Learn;
      isLoading := true;
      error := None;
      searchTerm := [];
    }

    /** `handleModuleSelect`: a new module always opens on the learn view with no search. */
    method HandleModuleSelect(moduleName: string)
      modifies this
      ensures selectedModule == moduleName && activeTab == Learn && searchTerm == []
      ensures storedModule == old(storedModule) && storedLanguage == old(storedLanguage)
      ensures currentModuleData == old(currentModuleData) && language == old(language)
      ensures isLoading == old(isLoading) && error == old(error)
    {
      selectedModule := moduleName;
      activeTab := Learn;
      searchTerm := [];
    }

    /** The language switch of the sidebar. */
    method SetLanguage(lang: Language)
      modifies this`language
      ensures language == lang
    {
      language := lang;
    }

    /** The tab buttons of the sidebar. */
    method SetActiveTab(tab: Tab)
      modifies this`activeTab
      ensures activeTab == tab
    {
      activeTab := tab;
    }

    /** The search box of the header. */
    method SetSearchTerm(term: string)
      modifies this`searchTerm
      ensures searchTerm == term
    {
      searchTerm := term;
    }

    /** The effect that follows a change of module or language: both preferences are
        persisted and `fetchModuleData` runs to completion. `rejected` stands for the
        content request failing. A failed request keeps the previous bundle but sets
        the error, which the main pane shows in its place. */
    method LoadSelection(rejected: bool)
      requires Valid()
      modifies this
      ensures Valid()
      ensures storedModule == selectedModule == old(selectedModule)
      ensures storedLanguage == language == old(language)
      ensures !isLoading
      ensures rejected ==> error == Some(FetchError) && currentModuleData == old(currentModuleData)
      ensures !rejected ==>
        error.None? && currentModuleData == Some(Provider.GenerateModuleContent(selectedModule, language))
      ensures activeTab == old(activeTab) && searchTerm == old(searchTerm)
    {
      storedModule := selectedModule;
      storedLanguage := language;
      isLoading := true;
      error := None;
      if rejected {
        error := Some(FetchError);
      } else {
        currentModuleData := Some(Provider.GenerateModuleContent(selectedModule, language));
      }
      isLoading := false;
    }

    /** The main pane: the filtered bundle under the render precedence. Whatever view
        receives a bundle receives a well-formed one. */
    function Content(): (v: View)
      reads this
      requires Valid()
      ensures v.QuizView? || v.LearnView? ==> WellFormedBundle(v.bundle)
      ensures v.QuizView? || v.LearnView? ==>
        currentModuleData.Some? && v.bundle == ContentFilter.FilterModuleData(currentModuleData, searchTerm).value
      ensures !isLoading && !Truthy(error) && currentModuleData.Some? && activeTab == Quiz ==> v.QuizView?
    {
      if currentModuleData.Some? then
        ContentFilter.FilterKeepsWellFormed(currentModuleData, searchTerm);
        RenderContent(isLoading, error, ContentFilter.FilterModuleData(currentModuleData, searchTerm), activeTab)
      else
        RenderContent(isLoading, error, None, activeTab)
    }
  }
}
