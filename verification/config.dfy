/** The backend settings check (`backend/config.py`): the two Supabase
    settings are read from the environment with an empty default, and
    validation lists the empty ones in declaration order. */
module Config {
  import opened Wrappers
  import Strings
  import Seqs

  const MissingPrefix: string := "Missing required environment variables: "

  /** The settings `validate` looks at; the others only carry defaults. */
  datatype Settings = Settings(supabaseUrl: string, supabaseServiceKey: string)

  /** `os.getenv(name, default)`. */
  function Getenv(env: map<string, string>, name: string, default: string): string {
    if name in env then env[name] else default
  }

  /** The class attributes as the module loads them. */
  function FromEnv(env: map<string, string>): (s: Settings)
    ensures "SUPABASE_URL" in env ==> s.supabaseUrl == env["SUPABASE_URL"]
    ensures "SUPABASE_URL" !in env ==> s.supabaseUrl == ""
    ensures "SUPABASE_SERVICE_KEY" in env ==> s.supabaseServiceKey == env["SUPABASE_SERVICE_KEY"]
    ensures "SUPABASE_SERVICE_KEY" !in env ==> s.supabaseServiceKey == ""
  {
    Settings(Getenv(env, "SUPABASE_URL", ""), Getenv(env, "SUPABASE_SERVICE_KEY", ""))
  }

  /** The required settings with their values, in declaration order. */
  function Required(s: Settings): seq<(string, string)> {
    [("SUPABASE_URL", s.supabaseUrl), ("SUPABASE_SERVICE_KEY", s.supabaseServiceKey)]
  }

  /** A required setting whose value is empty. */
  predicate Unset(setting: (string, string)) {
    setting.1 == ""
  }

  function NameOf(setting: (string, string)): string {
    setting.0
  }

  /** `[name for name, value in required_settings if not value]`. */
  function MissingNames(required: seq<(string, string)>): (r: seq<string>)
    ensures |r| <= |required|
    // the comprehension itself: the unset settings, in declaration order, by name
    ensures r == Seqs.Map(Seqs.Filter(required, Unset), NameOf)
    ensures r == [] <==> forall i :: 0 <= i < |required| ==> required[i].1 != ""
    ensures forall name :: name in r <==> exists i :: 0 <= i < |required| && required[i] == (name, "")
  {
    if |required| == 0 then []
    else
      var rest := MissingNames(required[1..]);
      var r := (if required[0].1 == "" then [required[0].0] else []) + rest;
      MissingInOrderStep(required, rest);
      MissingEmptyStep(required, rest);
      MissingMembersStep(required, rest);
      r
  }

  /** The first setting, then the comprehension over the rest. */
  lemma MissingInOrderStep(required: seq<(string, string)>, rest: seq<string>)
    requires |required| > 0
    requires rest == Seqs.Map(Seqs.Filter(required[1..], Unset), NameOf)
    ensures (if required[0].1 == "" then [required[0].0] else []) + rest ==
      Seqs.Map(Seqs.Filter(required, Unset), NameOf)
  {
    var later := Seqs.Filter(required[1..], Unset);
    if Unset(required[0]) {
      assert Seqs.Filter(required, Unset) == [required[0]] + later;
      Seqs.MapCons(required[0], later, NameOf);
    } else {
      assert Seqs.Filter(required, Unset) == [] + later;
    }
  }

  lemma MissingEmptyStep(required: seq<(string, string)>, rest: seq<string>)
    requires |required| > 0
    requires rest == [] <==> forall i :: 0 <= i < |required[1..]| ==> required[1..][i].1 != ""
    ensures (if required[0].1 == "" then [required[0].0] else []) + rest == [] <==>
      forall i :: 0 <= i < |required| ==> required[i].1 != ""
  {
    assert (forall i :: 0 <= i < |required| ==> required[i].1 != "") <==>
      required[0].1 != "" && forall i :: 0 <= i < |required[1..]| ==> required[1..][i].1 != "";
  }

  lemma MissingMembersStep(required: seq<(string, string)>, rest: seq<string>)
    requires |required| > 0
    requires forall name :: name in rest <==> exists i :: 0 <= i < |required[1..]| && required[1..][i] == (name, "")
    ensures var r := (if required[0].1 == "" then [required[0].0] else []) + rest;
      forall name :: name in r <==> exists i :: 0 <= i < |required| && required[i] == (name, "")
  {
    var r := (if required[0].1 == "" then [required[0].0] else []) + rest;
    forall name
      ensures name in r <==> exists i :: 0 <= i < |required| && required[i] == (name, "")
    {
      if name in rest {
        var i :| 0 <= i < |required[1..]| && required[1..][i] == (name, "");
        assert required[i + 1] == (name, "");
      }
      if exists i :: 0 <= i < |required| && required[i] == (name, "") {
        var i :| 0 <= i < |required| && required[i] == (name, "");
        if i > 0 {
          assert required[1..][i - 1] == (name, "");
        }
      }
    }
  }

  /** `Settings.validate`: nothing when every required setting is set,
      otherwise the `ValueError` message naming the empty ones. */
  function Validate(s: Settings): (r: Result<(), string>)
    ensures r.Success? <==> s.supabaseUrl != "" && s.supabaseServiceKey != ""
    ensures r.Failure? ==> r.error == MissingPrefix + Strings.Join(MissingNames(Required(s)), ", ")
  {
    var missing := MissingNames(Required(s));
    assert missing == [] <==> s.supabaseUrl != "" && s.supabaseServiceKey != "" by {
      if s.supabaseUrl == "" {
        assert Required(s)[0] == ("SUPABASE_URL", "");
        assert "SUPABASE_URL" in missing;
      }
      if s.supabaseServiceKey == "" {
        assert Required(s)[1] == ("SUPABASE_SERVICE_KEY", "");
        assert "SUPABASE_SERVICE_KEY" in missing;
      }
    }
    if |missing| > 0 then Failure(MissingPrefix + Strings.Join(missing, ", ")) else Success(())
  }

  /** The message for each combination of empty settings, names in order. */
  lemma ValidateMessages(url: string, key: string)
    ensures url == "" && key == "" ==>
      Validate(Settings(url, key)) == Failure(MissingPrefix + "SUPABASE_URL" + ", " + "SUPABASE_SERVICE_KEY")
    ensures url == "" && key != "" ==> Validate(Settings(url, key)) == Failure(MissingPrefix + "SUPABASE_URL")
    ensures url != "" && key == "" ==> Validate(Settings(url, key)) == Failure(MissingPrefix + "SUPABASE_SERVICE_KEY")
  {
    MissingOfTwo(url, key);
    if url == "" && key == "" {
      var m := MissingNames(Required(Settings(url, key)));
      assert m == ["SUPABASE_URL", "SUPABASE_SERVICE_KEY"];
      JoinTwo("SUPABASE_URL", "SUPABASE_SERVICE_KEY", ", ");
      assert Validate(Settings(url, key)) == Failure(MissingPrefix + Strings.Join(m, ", "));
      assert MissingPrefix + ("SUPABASE_URL" + ", " + "SUPABASE_SERVICE_KEY") == MissingPrefix + "SUPABASE_URL" + ", " + "SUPABASE_SERVICE_KEY";
    }
  }

  lemma MissingOfTwo(url: string, key: string)
    ensures MissingNames(Required(Settings(url, key))) ==
      (if url == "" then ["SUPABASE_URL"] else []) + (if key == "" then ["SUPABASE_SERVICE_KEY"] else [])
  {
    var req := Required(Settings(url, key));
    assert req[1..] == [("SUPABASE_SERVICE_KEY", key)];
    assert req[1..][1..] == [];
  }

  lemma JoinTwo(a: string, b: string, sep: string)
    ensures Strings.Join([a, b], sep) == a + sep + b
  {
    assert [a, b][1..] == [b];
  }

  /** An environment that sets neither setting fails validation, naming both. */
  lemma UnsetEnvironmentFails(env: map<string, string>)
    requires "SUPABASE_URL" !in env && "SUPABASE_SERVICE_KEY" !in env
    ensures Validate(FromEnv(env)) == Failure(MissingPrefix + "SUPABASE_URL" + ", " + "SUPABASE_SERVICE_KEY")
  {
    ValidateMessages("", "");
  }

  /** The loaded settings validate exactly when the environment sets both
      required variables to non-empty values. */
  lemma EnvironmentValidIff(env: map<string, string>)
    ensures Validate(FromEnv(env)).Success? <==>
      "SUPABASE_URL" in env && env["SUPABASE_URL"] != "" &&
      "SUPABASE_SERVICE_KEY" in env && env["SUPABASE_SERVICE_KEY"] != ""
  {
  }
}
