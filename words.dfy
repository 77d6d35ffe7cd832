/** The word table of gallows/ver_0.5/words.py and get_random_word, which
    picks a word of one category in one language. The library's random
    choice is an argument `pick`: any natural number, reduced modulo the
    length of the list, stands for the index random.choice draws. */
module Words {

  /** The exceptions the Python code can raise: a missing dictionary key
      (KeyError) or random.choice on an empty list (IndexError). */
  datatype Error = KeyError(key: string) | IndexError

  datatype Result<T> = Ok(value: T) | Err(error: Error)

  /** words: category -> language -> list of words. */
  const Table: map<string, map<string, seq<string>>> := map[
    "animals" := map[
      "Русский" := ["кот", "собака", "птица", "рыба", "слон"],
      "English" := ["cat", "dog", "bird", "fish", "elephant"]
    ],
    "fruits" := map[
      "Русский" := ["яблоко", "банан", "апельсин", "виноград", "манго"],
      "English" := ["apple", "banana", "orange", "grape", "mango"]
    ],
    "cities" := map[
      "Русский" := ["москва", "лондон", "париж", "берлин", "рим"],
      "English" := ["moscow", "london", "paris", "berlin", "rome"]
    ]
  ]

  /** random.choice(items), with the drawn index given as `pick`. */
  function Choice(items: seq<string>, pick: nat): (r: Result<string>)
    ensures r.Ok? <==> items != []
    ensures r.Ok? ==> r.value in items
    ensures r.Err? ==> r.error == IndexError
  {
    if items == [] then Err(IndexError) else Ok(items[pick % |items|])
  }

  /** get_random_word(category, language) */
  function GetRandomWord(category: string, language: string, pick: nat): (r: Result<string>)
    ensures category !in Table ==> r == Err(KeyError(category))
    ensures category in Table && language !in Table[category] ==> r == Err(KeyError(language))
    ensures category in Table && language in Table[category] ==>
              (r.Ok? <==> Table[category][language] != [])
    ensures r.Ok? ==> category in Table && language in Table[category] && r.value in Table[category][language]
  {
    if category !in Table then Err(KeyError(category))
    else if language !in Table[category] then Err(KeyError(language))
    else Choice(Table[category][language], pick)
  }

  /** The categories are animals, fruits and cities; each has a Russian and
      an English list of five words. */
  lemma TableShape()
    ensures Table.Keys == {"animals", "fruits", "cities"}
    ensures forall c :: c in Table ==> Table[c].Keys == {"Русский", "English"}
    ensures forall c :: c in Table ==>
              |Table[c]["Русский"]| == 5 && |Table[c]["English"]| == 5
  {
  }

  /** get_random_word succeeds exactly for an existing category and
      language, and then returns a word of that list. */
  lemma DefinedExactlyOnKeys(category: string, language: string, pick: nat)
    ensures GetRandomWord(category, language, pick).Ok? <==>
              category in Table && language in Table[category]
  {
  }

  /** Every word of a list can be drawn: the pick that is its index. */
  lemma EveryWordCanBeDrawn(category: string, language: string, i: nat)
    requires category in Table && language in Table[category]
    requires i < |Table[category][language]|
    ensures GetRandomWord(category, language, i) == Ok(Table[category][language][i])
  {
  }
}
