/**
 * The model registry of backend/app/core/llm_manager.py. A `ChatOpenAI`
 * client is an opaque value that records the arguments it was built with;
 * the API key (settings.OPENAI_API_KEY) is given to the manager when it is
 * created.
 */
module LlmManager {
  import opened Wrappers
  import opened Text

  /** `ModelName`, in declaration order. */
  datatype ModelName = Gpt4oMini | Gpt4o | Gpt5
  {
    function Value(): string
    {
      match this
      case Gpt4oMini => "gpt-4o-mini"
      case Gpt4o => "gpt-4o"
      case Gpt5 => "gpt-5"
    }
  }

  /** Iteration order of the enum: declaration order. */
  const Members: seq<ModelName> := [Gpt4oMini, Gpt4o, Gpt5]

  /** `ModelName.values()`: the value of every member, in declaration order. */
  function Values(): (vs: seq<string>)
    ensures vs == ["gpt-4o-mini", "gpt-4o", "gpt-5"]
    ensures forall m: ModelName :: m.Value() in vs
  {
    seq(|Members|, i requires 0 <= i < |Members| => Members[i].Value())
  }

  /** An opaque `ChatOpenAI` client. */
  datatype ChatModel = ChatOpenAI(apiKey: string, model: string)

  /** The map `initialize` builds: one client per model name. */
  function Registry(apiKey: string): (m: map<string, ChatModel>)
    ensures m.Keys == set v | v in Values()
    ensures forall v :: v in m ==> m[v] == ChatOpenAI(apiKey, v)
  {
    map v | v in Values() :: ChatOpenAI(apiKey, v)
  }

  /** The registry has exactly one entry per model name. */
  lemma RegistrySize(apiKey: string)
    ensures |Registry(apiKey)| == |Values()| == 3
  {
    var keys := Registry(apiKey).Keys;
    assert keys == {"gpt-4o-mini", "gpt-4o", "gpt-5"};
    assert "gpt-4o-mini" != "gpt-4o" by { assert "gpt-4o-mini"[6] != "gpt-4o"[5] || |"gpt-4o-mini"| != |"gpt-4o"|; }
  }

  /** The ValueError text of `get_model` for an unknown name. */
  function NotFoundMessage(name: string): string
  {
    "Model '" + name + "' not found. Available models: " + Join(Values(), ", ")
  }

  lemma NotFoundMessageListsModels(name: string)
    ensures NotFoundMessage(name) == "Model '" + name + "' not found. Available models: gpt-4o-mini, gpt-4o, gpt-5"
  {
    var vs := Values();
    assert vs[1..] == ["gpt-4o", "gpt-5"];
    assert vs[1..][1..] == ["gpt-5"];
  }

  class LLMManager {
    const apiKey: string
    var models: map<string, ChatModel>
    var initialized: bool

    /** `_models` stays empty until `initialize` fills it with the whole registry. */
    ghost predicate Valid()
      reads this
    {
      (!initialized ==> models == map[]) && (initialized ==> models == Registry(apiKey))
    }

    constructor (apiKey: string)
      ensures Valid() && this.apiKey == apiKey
      ensures !initialized && models == map[]
    {
      this.apiKey := apiKey;
      models := map[];
      initialized := false;
    }

    /** `initialize`: on the first call, registers one client per model name; later calls change nothing. */
    method Initialize() returns (r: bool)
      requires Valid()
      modifies this
      ensures Valid() && r && initialized
      ensures models == Registry(apiKey)
      ensures old(initialized) ==> models == old(models)
    {
      if !initialized {
        var names := Values();
        for i := 0 to |names|
          invariant models == map v | v in names[..i] :: ChatOpenAI(apiKey, v)
        {
          models := models[names[i] := ChatOpenAI(apiKey, names[i])];
          assert names[..i + 1] == names[..i] + [names[i]];
        }
        assert names[..|names|] == names;
        initialized := true;
      }
      r := initialized;
    }

    /**
     * `get_model`: initialises first when needed, then returns the client
     * registered under `name`, or the ValueError listing the available names.
     */
    method GetModel(name: string) returns (r: Result<ChatModel, string>)
      requires Valid()
      modifies this
      ensures Valid() && initialized
      ensures models == Registry(apiKey)
      ensures name in Values() ==> r == Success(ChatOpenAI(apiKey, name))
      ensures name !in Values() ==> r == Failure(NotFoundMessage(name))
    {
      if !initialized {
        var _ := Initialize();
      }
      if name !in models {
        return Failure(NotFoundMessage(name));
      }
      r := Success(models[name]);
    }

    /** `is_initialized`: true exactly when the registry has been filled. */
    function IsInitialized(): (r: bool)
      requires Valid()
      reads this
      ensures r <==> |models| == |Values()|
    {
      RegistrySize(apiKey);
      initialized
    }
  }

  /** A fresh manager is uninitialised; one call to `initialize` or `get_model` initialises it, once. */
  method LifecycleScenario(apiKey: string)
  {
    var m := new LLMManager(apiKey);
    assert !m.IsInitialized();
    var c := m.GetModel("gpt-4o");
    assert c == Success(ChatOpenAI(apiKey, "gpt-4o"));
    assert m.IsInitialized();
    var before := m.models;
    var ok := m.Initialize();
    assert ok && m.models == before;
    var missing := m.GetModel("gpt-3");
    assert missing.Failure?;
  }
}
