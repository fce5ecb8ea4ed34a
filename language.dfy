/** LanguageContext.jsx: the current language, the translation lookup `t`
    with `{{name}}` placeholders, and the switch between the supported
    languages. Fetching the translation files is outside the model: the
    loaded translations are a field, and the value read from local storage
    is a constructor parameter. */
module Language {
  import Text

  /** The languages `switchLanguage` accepts. */
  const SupportedLanguages: seq<string> := ["en", "ua", "ru"]

  const DefaultLanguage := "en"

  /** `translations[key] || key`: the key itself stands in for a missing or
      empty translation. */
  function Lookup(translations: map<string, string>, key: string): (text: string)
    ensures key in translations && translations[key] != "" ==> text == translations[key]
    ensures key !in translations || translations[key] == "" ==> text == key
  {
    if key in translations && translations[key] != "" then translations[key] else key
  }

  /** The placeholder `{{name}}` of a parameter. */
  function Placeholder(name: string): (p: string)
    ensures |p| == |name| + 4 && p != []
  {
    "{{" + name + "}}"
  }

  /** The parameters substituted one after another, in order, each into
      the text the previous ones produced, every occurrence of its
      placeholder being replaced. */
  function Substitute(text: string, params: seq<(string, string)>): string
  {
    if params == [] then text
    else
      var last := params[|params| - 1];
      Text.ReplaceAll(Substitute(text, params[..|params| - 1]), Placeholder(last.0), last.1)
  }

  /** Without parameters the text is returned unchanged. */
  lemma SubstituteNothing(text: string)
    ensures Substitute(text, []) == text
  {
  }

  /** Substituting two lists of parameters in a row is substituting their
      concatenation. */
  lemma {:induction false} SubstituteAppend(text: string, p: seq<(string, string)>, q: seq<(string, string)>)
    ensures Substitute(text, p + q) == Substitute(Substitute(text, p), q)
  {
    if q == [] {
      assert p + q == p;
    } else {
      var n := |q| - 1;
      SubstituteAppend(text, p, q[..n]);
      assert (p + q)[..|p + q| - 1] == p + q[..n];
    }
  }

  /** One parameter cuts the text at every occurrence of its placeholder
      and joins the pieces with its value: no piece holds the placeholder,
      and joined with the placeholder the pieces give the text back. */
  lemma SubstituteOne(text: string, name: string, value: string)
    ensures var pieces := Text.Split(text, Placeholder(name));
      && Substitute(text, [(name, value)]) == Text.Join(pieces, value)
      && Text.Join(pieces, Placeholder(name)) == text
      && forall k :: 0 <= k < |pieces| ==> !Text.Contains(pieces[k], Placeholder(name))
  {
    assert [(name, value)][..0] == [];
    Text.ReplaceAllIsJoin(text, Placeholder(name), value);
    Text.SplitJoin(text, Placeholder(name));
    Text.SplitPiecesFree(text, Placeholder(name));
  }

  /** A text without the placeholder is left as it is. */
  lemma SubstituteAbsent(text: string, name: string, value: string)
    requires !Text.Contains(text, Placeholder(name))
    ensures Substitute(text, [(name, value)]) == text
  {
    assert [(name, value)][..0] == [];
    Text.ReplaceAllAbsent(text, Placeholder(name), value);
  }

  /** A placeholder that an earlier value brings in is replaced by a later
      parameter of that name. */
  lemma SubstituteChains(a: string, b: string, value: string)
    ensures Substitute(Placeholder(a), [(a, Placeholder(b)), (b, value)]) == value
  {
    var params := [(a, Placeholder(b)), (b, value)];
    assert params[..1] == [(a, Placeholder(b))];
    assert params[..1][..0] == [];
    Text.ReplaceAllWhole(Placeholder(a), Placeholder(b));
    Text.ReplaceAllWhole(Placeholder(b), value);
    assert Substitute(Placeholder(a), params[..1]) == Placeholder(b) by {
      assert Substitute(Placeholder(a), params[..1][..0]) == Placeholder(a);
    }
    assert Substitute(Placeholder(a), params) ==
      Text.ReplaceAll(Substitute(Placeholder(a), params[..1]), Placeholder(b), value);
  }

  /** What `t(key, params)` returns. */
  function Translate(translations: map<string, string>, key: string, params: seq<(string, string)>): string
  {
    Substitute(Lookup(translations, key), params)
  }

  /** The language provider's state. */
  class LanguageState {
    var language: string
    /** The `LS_KEYS.LANGUAGE` local-storage item. */
    var storedLanguage: Option<string>
    var translations: map<string, string>

    /** `useState(() => localStorage.getItem(LS_KEYS.LANGUAGE) || 'en')`,
        before any translation is loaded. */
    constructor(stored: Option<string>)
      ensures stored.Some? && stored.value != "" ==> language == stored.value
      ensures stored.None? || stored.value == "" ==> language == DefaultLanguage
      ensures storedLanguage == stored && translations == map[]
    {
      language := if stored.Some? && stored.value != "" then stored.value else DefaultLanguage;
      storedLanguage := stored;
      translations := map[];
    }

    /** `t(key, params)`: the translation, or the key, with each parameter
        substituted in turn. */
    method T(key: string, params: seq<(string, string)>) returns (text: string)
      ensures text == Translate(translations, key, params)
    {
      text := Lookup(translations, key);
      for i := 0 to |params|
        invariant text == Substitute(Lookup(translations, key), params[..i])
      {
        assert params[..i + 1][..i] == params[..i];
        var (name, value) := params[i];
        text := Text.ReplaceAll(text, Placeholder(name), value);
      }
      assert params[..|params|] == params;
    }

    /** `switchLanguage(newLanguage)`: a supported language becomes the
        current and the stored one; any other value changes nothing. */
    method SwitchLanguage(newLanguage: string)
      modifies this
      ensures newLanguage in SupportedLanguages ==> language == newLanguage && storedLanguage == Some(newLanguage)
      ensures newLanguage !in SupportedLanguages ==>
        language == old(language) && storedLanguage == old(storedLanguage)
      ensures translations == old(translations)
    {
      if newLanguage in SupportedLanguages {
        language := newLanguage;
        storedLanguage := Some(newLanguage);
      }
    }
  }

  datatype Option<T> = None | Some(value: T)
}
