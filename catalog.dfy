/**
 * The snippet bank of app.py: for each language offered in the sidebar, the
 * code snippets a practice round can ask for, and the choice of one of them.
 */
module Catalog {
  import opened Wrappers

  /** LANGUAGES: the snippets of each language, in the order they are listed. */
  const LANGUAGES: map<string, seq<string>> := map[
    "Python" := [
      "def greet(name):\n    return f\"Hello, {name}!\"",
      "for i in range(5):\n    print(i)",
      "class Person:\n    def __init__(self, name):\n        self.name = name",
      "def factorial(n):\n    if n == 0:\n        return 1\n    else:\n        return n * factorial(n-1)"
    ],
    "JavaScript" := [
      "function greet(name) {\n    return `Hello, ${name}`;\n}",
      "for (let i = 0; i < 5; i++) {\n    console.log(i);\n}",
      "class Person {\n    constructor(name) {\n        this.name = name;\n    }\n}"
    ],
    "C++" := [
      "#include<iostream>\nusing namespace std;\nint main() {\n    cout << \"Hello\";\n    return 0;\n}",
      "for (int i = 0; i < 10; i++) {\n    cout << i << endl;\n}"
    ]
  ]

  /** list(LANGUAGES.keys()): the sidebar's options, in the dictionary's insertion order. */
  const LANGUAGE_OPTIONS: seq<string> := ["Python", "JavaScript", "C++"]

  /** LANGUAGES[language] raises KeyError for a language that is not in the bank. */
  datatype CatalogError = UnknownLanguage(language: string) | NoSnippet(language: string)

  /**
   * random.choice(LANGUAGES[language]), with the random draw given as a
   * number: the draw picks the snippet at its position, taken modulo the
   * number of snippets.
   */
  function SelectSnippet(language: string, draw: nat): (r: Result<string, CatalogError>)
    ensures r.Success? <==> language in LANGUAGES && LANGUAGES[language] != []
    ensures r.Success? ==> r.value in LANGUAGES[language]
    ensures language !in LANGUAGES ==> r == Failure(UnknownLanguage(language))
  {
    if language !in LANGUAGES then
      Failure(UnknownLanguage(language))
    else
      var snippets := LANGUAGES[language];
      if |snippets| == 0 then Failure(NoSnippet(language))
      else Success(snippets[draw % |snippets|])
  }

  /** Every language offered has at least one snippet, so a choice never fails on an offered language. */
  lemma EveryLanguageHasSnippets(language: string)
    requires language in LANGUAGES
    ensures LANGUAGES[language] != []
    ensures forall draw: nat :: SelectSnippet(language, draw).Success?
  {
  }

  /** Each snippet of a language is the choice of some draw. */
  lemma EverySnippetCanBeChosen(language: string, k: nat)
    requires language in LANGUAGES && k < |LANGUAGES[language]|
    ensures SelectSnippet(language, k) == Success(LANGUAGES[language][k])
  {
  }

  /** The sidebar offers exactly the languages of the bank, each once. */
  lemma OptionsAreTheLanguages()
    ensures forall language :: language in LANGUAGE_OPTIONS <==> language in LANGUAGES
    ensures forall i, j | 0 <= i < j < |LANGUAGE_OPTIONS| :: LANGUAGE_OPTIONS[i] != LANGUAGE_OPTIONS[j]
  {
  }

  /** A language outside the bank is refused. */
  lemma UnknownLanguageFails(draw: nat)
    ensures SelectSnippet("COBOL", draw) == Failure(UnknownLanguage("COBOL"))
  {
  }
}
