/** The build script's own reading of the registry: `parse_module_entries`. */
module BuildScript {
  import opened Prelude
  import opened Text

  const HEADER := "[[modules]]"
  const ID_KEY := "id = "
  const FEATURE_KEY := "cargo_feature = "

  type Entry = (string, string)

  function ParseStringValue(raw: string): string {
    var trimmed := Trim(raw);
    match StripPrefix(trimmed, "\"")
    case None => trimmed
    case Some(unopened) =>
      match StripSuffix(unopened, "\"")
      case None => trimmed
      case Some(s) => s
  }

  /** A pair is emitted only when both fields were seen; otherwise both are dropped. */
  function Emit(entries: seq<Entry>, id: Option<string>, feature: Option<string>): seq<Entry> {
    if id.Some? && feature.Some? then entries + [(id.value, feature.value)] else entries
  }

  function EntriesFrom(lines: seq<string>, entries: seq<Entry>, id: Option<string>, feature: Option<string>)
    : seq<Entry>
  {
    if lines == [] then Emit(entries, id, feature)
    else
      var trimmed, rest := Trim(lines[0]), lines[1..];
      if trimmed == HEADER then EntriesFrom(rest, Emit(entries, id, feature), None, None)
      else match StripPrefix(trimmed, ID_KEY)
        case Some(raw) => EntriesFrom(rest, entries, Some(ParseStringValue(raw)), feature)
        case None =>
          match StripPrefix(trimmed, FEATURE_KEY)
          case Some(raw) => EntriesFrom(rest, entries, id, Some(ParseStringValue(raw)))
          case None => EntriesFrom(rest, entries, id, feature)
  }

  /** What one more line contributes. */
  lemma ReadLine(lines: seq<string>, i: nat, entries: seq<Entry>, id: Option<string>, feature: Option<string>)
    requires i < |lines|
    ensures var trimmed := Trim(lines[i]);
      var idValue, featureValue := StripPrefix(trimmed, ID_KEY), StripPrefix(trimmed, FEATURE_KEY);
      EntriesFrom(lines[i..], entries, id, feature)
      == if trimmed == HEADER then EntriesFrom(lines[i + 1..], Emit(entries, id, feature), None, None)
         else if idValue.Some? then
           EntriesFrom(lines[i + 1..], entries, Some(ParseStringValue(idValue.value)), feature)
         else if featureValue.Some? then
           EntriesFrom(lines[i + 1..], entries, id, Some(ParseStringValue(featureValue.value)))
         else EntriesFrom(lines[i + 1..], entries, id, feature)
  {
    hide Trim, ParseStringValue, StripPrefix;
    assert lines[i..][1..] == lines[i + 1..];
  }

  function EntriesOf(content: string): seq<Entry> {
    EntriesFrom(Lines(content), [], None, None)
  }

  method ParseModuleEntries(content: string) returns (entries: seq<Entry>)
    ensures entries == EntriesOf(content)
  {
    entries := [];
    var currentId: Option<string> := None;
    var currentFeature: Option<string> := None;
    var lines := Lines(content);
    for i := 0 to |lines|
      invariant EntriesFrom(lines[i..], entries, currentId, currentFeature)
             == EntriesFrom(lines, [], None, None)
    {
      hide Trim, ParseStringValue, Lines, StripPrefix, EntriesFrom;
      ReadLine(lines, i, entries, currentId, currentFeature);
      var trimmed := Trim(lines[i]);
      if trimmed == HEADER {
        if currentId.Some? && currentFeature.Some? {
          entries := entries + [(currentId.value, currentFeature.value)];
        }
        currentId, currentFeature := None, None;
        continue;
      }
      var idValue := StripPrefix(trimmed, ID_KEY);
      if idValue.Some? {
        currentId := Some(ParseStringValue(idValue.value));
        continue;
      }
      var featureValue := StripPrefix(trimmed, FEATURE_KEY);
      if featureValue.Some? {
        currentFeature := Some(ParseStringValue(featureValue.value));
      }
    }
    if currentId.Some? && currentFeature.Some? {
      entries := entries + [(currentId.value, currentFeature.value)];
    }
  }
}
