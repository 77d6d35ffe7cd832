/** The word dictionary of gallows/ver_0.1/Dictionary.py: three English
    words with their Russian translations, and a lookup that answers
    "Перевод не найден" ("translation not found") for any other word. */
module Translation {

  /** The answer for a word that is not in the dictionary. */
  const NotFound: string := "Перевод не найден"

  /** The table that Dictionary() stores. */
  const InitialTable: map<string, string> :=
    map["apple" := "яблоко", "banana" := "банан", "cherry" := "вишня"]

  class Dictionary {
    var dictionary: map<string, string>

    /** Dictionary(): the three fixed pairs. */
    constructor ()
      ensures dictionary == InitialTable
    {
      dictionary := InitialTable;
    }

    /** get_translation: the stored translation, or NotFound. As a function
        of the object it reads the table and cannot change it, so two calls
        on the same state give the same answer. */
    function GetTranslation(word: string): (r: string)
      reads this
      ensures word in dictionary ==> r == dictionary[word]
      ensures word !in dictionary ==> r == NotFound
    {
      if word in dictionary then dictionary[word] else NotFound
    }
  }

  /** The constructed dictionary holds exactly apple, banana and cherry. */
  lemma InitialTableContents()
    ensures InitialTable.Keys == {"apple", "banana", "cherry"}
    ensures InitialTable["apple"] == "яблоко"
    ensures InitialTable["banana"] == "банан"
    ensures InitialTable["cherry"] == "вишня"
  {
  }

  /** No stored translation is the not-found answer, so on the constructed
      table the answer is NotFound exactly for the words it lacks. */
  lemma NotFoundOnlyForMissing(d: Dictionary, word: string)
    requires d.dictionary == InitialTable
    ensures d.GetTranslation(word) == NotFound <==> word !in d.dictionary
  {
  }
}
