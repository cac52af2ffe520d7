/** Scoring a news-title classifier (classify/javascript/src/utils.ts, with
    a standalone copy of the same functions in classify/js/src/index.ts).

    The model's reply is reduced to a lower-cased category string; each
    title is scored `match` (the category is the expected one) and `valid`
    (the category is one of the dataset's). The dataset arrives as parsed
    rows and features; fetching it and calling the model are left out. */
module Classification {
  import opened Wrappers
  import opened Text

  /** The parts of a chat completion that are read. A `null` or missing
      message or content is `None`. */
  datatype Message = Message(content: Option<string>)
  datatype Choice = Choice(message: Option<Message>)
  datatype ChatResponse = ChatResponse(choices: seq<Choice>)

  datatype Title = Title(text: string, classLabel: int)
  datatype Dataset = Dataset(titles: seq<Title>, categories: seq<string>)

  /** One entry of the dataset's `rows`, and one of its `features`, with
      `type?.names` as `labelNames`. */
  datatype Row = Row(text: string, classLabel: int)
  datatype Feature = Feature(name: string, labelNames: Option<seq<string>>)

  datatype Scores = Scores(matches: nat, valid: nat)

  /** The text of the first choice when it is present and not empty. */
  predicate HasAnswer(response: ChatResponse) {
    && |response.choices| > 0
    && response.choices[0].message.Some?
    && response.choices[0].message.value.content.Some?
    && response.choices[0].message.value.content.value != ""
  }

  /** `getCategoryFromResponse`: the first choice's content lower-cased, or
      `""` when there is no choice, no message, or no content. */
  function CategoryOf(response: ChatResponse): (r: string)
    ensures !HasAnswer(response) ==> r == ""
    ensures HasAnswer(response) ==>
              |r| == |response.choices[0].message.value.content.value| > 0
    ensures forall i :: 0 <= i < |r| ==> !('A' <= r[i] <= 'Z')
    ensures HasAnswer(response) ==>
              forall i :: 0 <= i < |r| ==>
                LowerChar(r[i]) == LowerChar(response.choices[0].message.value.content.value[i])
  {
    if |response.choices| == 0 then ""
    else
      var choice := response.choices[0];
      if choice.message.None? || choice.message.value.content.None?
         || choice.message.value.content.value == "" then ""
      else Lower(choice.message.value.content.value)
  }

  /** The category is the first choice's content up to case: choices after
      the first never matter. */
  lemma LaterChoicesIgnored(first: Choice, more: seq<Choice>, other: seq<Choice>)
    ensures CategoryOf(ChatResponse([first] + more)) == CategoryOf(ChatResponse([first] + other))
  {
  }

  /** A category is already lower-case: lower-casing it again changes
      nothing. */
  lemma CategoryIsLowerCase(response: ChatResponse)
    ensures Lower(CategoryOf(response)) == CategoryOf(response)
  {
    if HasAnswer(response) {
      LowerIdempotent(response.choices[0].message.value.content.value);
    }
  }

  /** `categories.indexOf(c)`: the first position of `c`, or -1. */
  function IndexOfCategory(categories: seq<string>, c: string): (r: int)
    ensures -1 <= r < |categories|
    ensures r == -1 <==> c !in categories
    ensures r >= 0 ==> categories[r] == c && forall j :: 0 <= j < r ==> categories[j] != c
  {
    if |categories| == 0 then -1
    else if categories[0] == c then 0
    else
      var r := IndexOfCategory(categories[1..], c);
      assert forall j :: 1 <= j < |categories| ==> categories[j] == categories[1..][j - 1];
      if r == -1 then -1 else r + 1
  }

  /** `dataset.categories[title.label].toLowerCase()`: a label outside the
      list reads `undefined`, and lower-casing it throws. */
  function ExpectedCategory(categories: seq<string>, index: int): (r: Result<string, string>)
    ensures r.Success? <==> 0 <= index < |categories|
    ensures r.Success? ==> r.value == Lower(categories[index])
  {
    if 0 <= index < |categories| then Success(Lower(categories[index]))
    else Failure("TypeError: cannot read properties of undefined")
  }

  /** The two scores of one title. */
  function ScoreTitle(categories: seq<string>, title: Title, response: ChatResponse)
    : (r: Result<Scores, string>)
    ensures r.Success? <==> 0 <= title.classLabel < |categories|
    ensures r.Success? ==> r.value.matches in {0, 1} && r.value.valid in {0, 1}
    ensures r.Success? ==>
              (r.value.matches == 1 <==> CategoryOf(response) == Lower(categories[title.classLabel]))
    ensures r.Success? ==> (r.value.valid == 1 <==> CategoryOf(response) in categories)
  {
    match ExpectedCategory(categories, title.classLabel)
    case Failure(e) => Failure(e)
    case Success(expected) =>
      var category := CategoryOf(response);
      Success(Scores(if category == expected then 1 else 0,
                     if IndexOfCategory(categories, category) != -1 then 1 else 0))
  }

  /** The scores `analyzeExperiment` logs, title by title; the loop stops
      with the error of the first title whose label is out of range, or
      whose response is missing. */
  method AnalyzeExperiment(dataset: Dataset, responses: seq<ChatResponse>)
    returns (r: Result<seq<Scores>, string>)
    ensures r.Success? <==>
              |dataset.titles| <= |responses|
              && forall i :: 0 <= i < |dataset.titles| ==>
                   0 <= dataset.titles[i].classLabel < |dataset.categories|
    ensures r.Success? ==>
              |r.value| == |dataset.titles|
              && forall i :: 0 <= i < |dataset.titles| ==>
                   Success(r.value[i]) == ScoreTitle(dataset.categories, dataset.titles[i], responses[i])
  {
    var scores: seq<Scores> := [];
    var i := 0;
    while i < |dataset.titles|
      invariant 0 <= i <= |dataset.titles|
      invariant i <= |responses|
      invariant |scores| == i
      invariant forall k :: 0 <= k < i ==> 0 <= dataset.titles[k].classLabel < |dataset.categories|
      invariant forall k :: 0 <= k < i ==>
                  Success(scores[k]) == ScoreTitle(dataset.categories, dataset.titles[k], responses[k])
    {
      if i >= |responses| {
        return Failure("TypeError: cannot read properties of undefined");
      }
      var s := ScoreTitle(dataset.categories, dataset.titles[i], responses[i]);
      if s.Failure? {
        return Failure(s.error);
      }
      scores := scores + [s.value];
      i := i + 1;
    }
    return Success(scores);
  }

  /** Where `features.find((f) => f["name"] == "label")` stops: the first
      feature named `label`, if any. */
  function LabelFeature(features: seq<Feature>): (r: Option<nat>)
    ensures r.None? <==> forall i :: 0 <= i < |features| ==> features[i].name != "label"
    ensures r.Some? ==> r.value < |features| && features[r.value].name == "label"
                        && forall j :: 0 <= j < r.value ==> features[j].name != "label"
  {
    if |features| == 0 then None
    else if features[0].name == "label" then Some(0)
    else
      var r := LabelFeature(features[1..]);
      assert forall j :: 1 <= j < |features| ==> features[j] == features[1..][j - 1];
      if r.None? then None else Some(r.value + 1)
  }

  /** The names `loadDataset` reads: those of the first feature named
      `label`, or none when there is no such feature or it has no names
      (the `|| []` fallback). */
  function LabelNames(features: seq<Feature>): (r: seq<string>)
    ensures LabelFeature(features).None? ==> r == []
    ensures LabelFeature(features).Some? ==>
              var f := features[LabelFeature(features).value];
              r == if f.labelNames.Some? then f.labelNames.value else []
  {
    var found := LabelFeature(features);
    if found.Some? && features[found.value].labelNames.Some?
    then features[found.value].labelNames.value else []
  }

  /** `loadDataset` once the rows and features have been fetched: one title
      per row, in row order, and the names of the `label` feature
      lower-cased in their order, or no categories when there is no such
      feature or it has no names. */
  function LoadDataset(rows: seq<Row>, features: seq<Feature>): (r: Dataset)
    ensures |r.titles| == |rows|
    ensures forall i :: 0 <= i < |rows| ==>
              r.titles[i].text == rows[i].text && r.titles[i].classLabel == rows[i].classLabel
    ensures |r.categories| == |LabelNames(features)|
    ensures forall i :: 0 <= i < |r.categories| ==>
              |r.categories[i]| == |LabelNames(features)[i]|
              && (forall k :: 0 <= k < |r.categories[i]| ==>
                    LowerChar(r.categories[i][k]) == LowerChar(LabelNames(features)[i][k]))
    ensures forall i :: 0 <= i < |r.categories| ==> Lower(r.categories[i]) == r.categories[i]
  {
    var names := LabelNames(features);
    var categories := seq(|names|, i requires 0 <= i < |names| => Lower(names[i]));
    LowerEach(names);
    Dataset(seq(|rows|, i requires 0 <= i < |rows| => Title(rows[i].text, rows[i].classLabel)),
            categories)
  }

  lemma LowerEach(names: seq<string>)
    ensures forall i :: 0 <= i < |names| ==> Lower(Lower(names[i])) == Lower(names[i])
    ensures forall i, k :: 0 <= i < |names| && 0 <= k < |names[i]| ==>
              LowerChar(Lower(names[i])[k]) == LowerChar(names[i][k])
  {
    forall i | 0 <= i < |names|
      ensures Lower(Lower(names[i])) == Lower(names[i])
    {
      LowerIdempotent(names[i]);
    }
  }

  /** The loaded categories are the label feature's names, lower-cased, in
      their order; without such a feature, or without names on it, there
      are none. */
  lemma LoadedCategories(rows: seq<Row>, features: seq<Feature>)
    ensures var c := LoadDataset(rows, features).categories;
            var found := LabelFeature(features);
            if found.Some? && features[found.value].labelNames.Some?
            then var names := features[found.value].labelNames.value;
                 |c| == |names| && forall k :: 0 <= k < |c| ==> c[k] == Lower(names[k])
            else c == []
  {
  }

  /** With categories as `loadDataset` leaves them, a match is always
      valid: the expected category is itself one of the categories. */
  lemma MatchImpliesValid(rows: seq<Row>, features: seq<Feature>, title: Title,
                          response: ChatResponse)
    requires ScoreTitle(LoadDataset(rows, features).categories, title, response).Success?
    ensures var s := ScoreTitle(LoadDataset(rows, features).categories, title, response).value;
            s.matches == 1 ==> s.valid == 1
  {
    var categories := LoadDataset(rows, features).categories;
    assert Lower(categories[title.classLabel]) == categories[title.classLabel];
  }

  /** The `findIndex` for a wrongly categorised title: the first response
      whose category is not in `categories`, or -1. */
  method InvalidIndex(categories: seq<string>, responses: seq<ChatResponse>) returns (index: int)
    ensures -1 <= index < |responses|
    ensures index == -1 <==> forall i :: 0 <= i < |responses| ==> CategoryOf(responses[i]) in categories
    ensures index >= 0 ==> CategoryOf(responses[index]) !in categories
                           && forall i :: 0 <= i < index ==> CategoryOf(responses[i]) in categories
  {
    var i := 0;
    while i < |responses|
      invariant 0 <= i <= |responses|
      invariant forall k :: 0 <= k < i ==> CategoryOf(responses[k]) in categories
    {
      if IndexOfCategory(categories, CategoryOf(responses[i])) == -1 {
        return i;
      }
      i := i + 1;
    }
    return -1;
  }
}
