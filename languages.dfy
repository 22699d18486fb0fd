/** The language registry: a fixed, case-sensitive table from a language key
    to the ordered glob patterns that select its files. */
module Languages {
  import opened Results

  /** The table `initProgrammingLanguages` fills, as a value. */
  function StandardLanguages(): map<string, seq<string>>
  {
    map[
      "C#" := ["*.cs"],
      "Java" := ["*.java"],
      "Python" := ["*.py"],
      "C++" := ["*.cpp", "*.h"],
      "Html" := ["*.html", "*.css"],
      "JavaScript" := ["*.js"],
      "all" := ["*.*"]
    ]
  }

  /** The process-wide dictionary `programmingLanguages`. */
  class LanguageTable {
    var programmingLanguages: map<string, seq<string>>

    constructor ()
      ensures programmingLanguages == map[]
    {
      programmingLanguages := map[];
    }

    /** `Dictionary.Add`: a key already present makes it throw, so a caller
        must not repeat a key. */
    method Add(language: string, patterns: seq<string>)
      requires language !in programmingLanguages
      modifies this
      ensures programmingLanguages == old(programmingLanguages)[language := patterns]
    {
      programmingLanguages := programmingLanguages[language := patterns];
    }

    /** `initProgrammingLanguages`: a fresh dictionary and seven registrations,
        no key repeated. */
    method InitProgrammingLanguages()
      modifies this
      ensures programmingLanguages == StandardLanguages()
    {
      programmingLanguages := map[];
      Add("C#", ["*.cs"]);
      Add("Java", ["*.java"]);
      Add("Python", ["*.py"]);
      Add("C++", ["*.cpp", "*.h"]);
      Add("Html", ["*.html", "*.css"]);
      Add("JavaScript", ["*.js"]);
      Add("all", ["*.*"]);
    }
  }

  /** `GetSearchPatternsByLanguage`: the registered patterns, or the
      unsupported-language error for a key that is not registered. */
  function GetSearchPatternsByLanguage(languages: map<string, seq<string>>, language: string): Result<seq<string>>
  {
    if language in languages then Ok(languages[language])
    else Err(UnsupportedLanguage(language))
  }

  /** Each of the seven keys gives its patterns in registration order, and
      every other key is unsupported. */
  lemma LookupStandard(language: string)
    ensures var r := GetSearchPatternsByLanguage(StandardLanguages(), language);
            && (language == "C#" ==> r == Ok(["*.cs"]))
            && (language == "Java" ==> r == Ok(["*.java"]))
            && (language == "Python" ==> r == Ok(["*.py"]))
            && (language == "C++" ==> r == Ok(["*.cpp", "*.h"]))
            && (language == "Html" ==> r == Ok(["*.html", "*.css"]))
            && (language == "JavaScript" ==> r == Ok(["*.js"]))
            && (language == "all" ==> r == Ok(["*.*"]))
            && (language !in {"C#", "Java", "Python", "C++", "Html", "JavaScript", "all"} ==>
                  r == Err(UnsupportedLanguage(language)))
  {
  }

  /** No case folding and no partial matches. */
  lemma LookupIsExact()
    ensures GetSearchPatternsByLanguage(StandardLanguages(), "c#").Err?
    ensures GetSearchPatternsByLanguage(StandardLanguages(), "python").Err?
    ensures GetSearchPatternsByLanguage(StandardLanguages(), "ALL").Err?
    ensures GetSearchPatternsByLanguage(StandardLanguages(), "C").Err?
    ensures GetSearchPatternsByLanguage(StandardLanguages(), "Java ").Err?
  {
    LookupStandard("c#");
    LookupStandard("python");
    LookupStandard("ALL");
    LookupStandard("C");
    LookupStandard("Java ");
  }
}
