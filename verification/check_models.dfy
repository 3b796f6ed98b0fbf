/** The model listing of app/check-models.py: which of the listed models support
    text generation, and the short names printed for them. */
module CheckModels {
  import opened PyStr
  import opened Seqs

  /** The action a model must support to be printed. */
  const GenerateContent: string := "generateContent"

  /** One entry of `client.models.list()`: its resource name and its `supported_actions`. */
  datatype ModelInfo = ModelInfo(name: string, supportedActions: seq<string>)

  /** `"generateContent" in m.supported_actions`. */
  predicate SupportsGenerate(m: ModelInfo) {
    GenerateContent in m.supportedActions
  }

  /** `name.split("/")[-1]`: the part of the name after its last `'/'`. It is a
      `'/'`-free suffix of the name, preceded by nothing or by a `'/'`. */
  function ShortName(name: string): (short: string)
    ensures '/' !in short
    ensures |short| <= |name| && name[|name| - |short|..] == short
    ensures |short| < |name| ==> name[|name| - |short| - 1] == '/'
  {
    var i := TailStart(name, '/');
    assert name == name[..i] + name[i..];
    SplitLastAfterSep(name[..i], name[i..], '/');
    Last(Split(name, '/'))
  }

  /** Any `'/'`-free tail after an empty or `'/'`-terminated prefix is what shortening
      keeps: together with the contract of `ShortName`, this pins the short name down. */
  lemma ShortNameOf(prefix: string, tail: string)
    requires '/' !in tail
    requires prefix == [] || prefix[|prefix| - 1] == '/'
    ensures ShortName(prefix + tail) == tail
  {
    SplitLastAfterSep(prefix, tail, '/');
  }

  /** A name without `'/'` is printed unchanged. */
  lemma ShortNameWithoutSlash(name: string)
    requires '/' !in name
    ensures ShortName(name) == name
  {
    ShortNameOf([], name);
    assert [] + name == name;
  }

  /** The `"models/"` prefix of a resource name is removed. */
  lemma ShortNameDropsModelsPrefix(x: string)
    requires '/' !in x
    ensures ShortName("models/" + x) == x
  {
    ShortNameOf("models/", x);
  }

  function ShortModelName(m: ModelInfo): string {
    ShortName(m.name)
  }

  /** The names the script prints, in listing order: the short names of the models
      that support `generateContent`. */
  function AvailableModels(models: seq<ModelInfo>): (names: seq<string>)
    ensures |names| <= |models|
    ensures forall k :: 0 <= k < |names| ==> '/' !in names[k]
  {
    var names := FilterMap(models, SupportsGenerate, ShortModelName);
    FilterMapAtPositions(models, SupportsGenerate, ShortModelName);
    var at := KeptPositions(models, SupportsGenerate);
    assert forall k :: 0 <= k < |names| ==> '/' !in names[k] by {
      forall k | 0 <= k < |names|
        ensures '/' !in names[k]
      {
        assert names[k] == ShortModelName(models[at[k]]);
      }
    }
    names
  }

  /** Exactly the supporting models are printed, each once, in listing order: the
      `k`-th printed name belongs to the `k`-th supporting model. */
  lemma AvailableModelsInOrder(models: seq<ModelInfo>)
    ensures var at := KeptPositions(models, SupportsGenerate);
            && |AvailableModels(models)| == |at|
            && forall k :: 0 <= k < |at| ==> AvailableModels(models)[k] == ShortName(models[at[k]].name)
  {
    FilterMapAtPositions(models, SupportsGenerate, ShortModelName);
  }

  /** Every supporting model's short name is printed. */
  lemma AvailableModelsComplete(models: seq<ModelInfo>, i: nat)
    requires i < |models| && SupportsGenerate(models[i])
    ensures ShortName(models[i].name) in AvailableModels(models)
  {
    AvailableModelsInOrder(models);
    var at := KeptPositions(models, SupportsGenerate);
    var k :| 0 <= k < |at| && at[k] == i;
    assert AvailableModels(models)[k] == ShortName(models[i].name);
  }

  /** The listing arrives page by page; filtering the whole listing is filtering
      each page in turn. */
  lemma AvailableModelsPages(page: seq<ModelInfo>, rest: seq<ModelInfo>)
    ensures AvailableModels(page + rest) == AvailableModels(page) + AvailableModels(rest)
  {
    FilterMapAppend(page, rest, SupportsGenerate, ShortModelName);
  }
}
