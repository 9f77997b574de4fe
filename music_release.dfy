/** `MusicReleaseModel` of `src/models/MusicReleaseModel.ts`: a media record
    whose properties are whatever the constructor argument carried, with
    `type` forced to "musicRelease". */
module MusicRelease {

  import opened Wrappers
  import opened JsText
  import opened Values
  import Template

  /** `mediaDbTag` of `src/utils/Utils.ts`. */
  const MediaDbTag: string := "mediaDB"

  const ReleaseType: string := "musicRelease"

  /** The property map right after construction: the argument's own
      properties, then `type` overwritten. */
  function Constructed(obj: map<string, Value>): (f: map<string, Value>)
    ensures f.Keys == obj.Keys + {"type"}
    ensures f["type"] == Str(ReleaseType)
    ensures forall key :: key in obj && key != "type" ==> f[key] == obj[key]
  {
    obj["type" := Str(ReleaseType)]
  }

  class MusicReleaseModel {
    /** The record's own enumerable properties. */
    var fields: map<string, Value>

    /** `Object.assign(this, obj)` on the fresh record, then the `type`
        assignment. */
    constructor(obj: map<string, Value>)
      ensures fields == Constructed(obj)
    {
      fields := map[];
      new;
      fields := fields + obj;
      fields := fields["type" := Str(ReleaseType)];
    }

    /** `this.<name>`: an own property, or `undefined`. */
    function Field(name: string): Value
      reads this
    {
      Lookup(Object(fields), name)
    }

    /** `getTags`: the fixed tag list. */
    function Tags(): (tags: seq<string>)
      ensures |tags| == 3 && tags[0] == MediaDbTag
      ensures tags[1..] == ["music", "album"]
    {
      [MediaDbTag, "music", "album"]
    }

    /** `getFileName`. `this.artists.join` throws unless `artists` is an
        array, so the name is `None` exactly then; the other three fields go
        through JavaScript's string conversion. */
    function FileName(): (name: Option<string>)
      reads this
      ensures name.Some? <==> Field("artists").StrList?
      ensures name.Some? ==> StartsAndCloses(name.value, ToText(Field("title")) + " (")
    {
      match Field("artists")
      case StrList(artists) =>
        var head := ToText(Field("title")) + " (";
        var tail := Join(artists, ", ") + " - " + ToText(Field("year")) + " - "
          + ToText(Field("subType")) + ")";
        Closes(Join(artists, ", ") + " - " + ToText(Field("year")) + " - " + ToText(Field("subType")));
        ConcatEnds(head, tail);
        Some(head + tail)
      case _ => None
    }

    /** The object handed to `stringifyYaml` by `toMetaData`: the record's
        properties with `tags` set to "#" and the tags joined by "/". */
    function MetaData(): (data: map<string, Value>)
      reads this
      ensures data.Keys == fields.Keys + {"tags"}
      ensures data["tags"] == Str("#mediaDB/music/album")
      ensures forall key :: key in fields && key != "tags" ==> data[key] == fields[key]
    {
      TagsText(Tags());
      fields["tags" := Str("#" + Join(Tags(), "/"))]
    }
  }

  /** `name` begins with `head` and ends with a closing parenthesis. */
  predicate StartsAndCloses(name: string, head: string)
  {
    |head| < |name| && name[..|head|] == head && name[|name| - 1] == ')'
  }

  lemma ConcatEnds(head: string, tail: string)
    requires tail != [] && tail[|tail| - 1] == ')'
    ensures StartsAndCloses(head + tail, head)
  {
    assert (head + tail)[..|head|] == head;
  }

  lemma Closes(s: string)
    ensures var t := s + ")"; t != [] && t[|t| - 1] == ')'
  {
  }

  lemma TagsText(tags: seq<string>)
    requires tags == [MediaDbTag, "music", "album"]
    ensures "#" + Join(tags, "/") == "#mediaDB/music/album"
  {
    assert Join(tags, "/") == "mediaDB" + "/" + Join(tags[1..], "/");
    assert tags[1..] == ["music", "album"];
    assert Join(["music", "album"], "/") == "music" + "/" + Join(["album"], "/");
  }

  /** With text-valued `title`, `year` and `subType` and an `artists` array,
      the file name is laid out from those four properties. */
  lemma FileNameLayout(m: MusicReleaseModel, title: string, artists: seq<string>, year: string, subType: string)
    requires "title" in m.fields && m.fields["title"] == Str(title)
    requires "artists" in m.fields && m.fields["artists"] == StrList(artists)
    requires "year" in m.fields && m.fields["year"] == Str(year)
    requires "subType" in m.fields && m.fields["subType"] == Str(subType)
    ensures m.FileName() == Some(title + " (" + Join(artists, ", ") + " - " + year + " - " + subType + ")")
  {
    assert m.Field("title") == Str(title) && m.Field("year") == Str(year);
    assert m.Field("subType") == Str(subType) && m.Field("artists") == StrList(artists);
    var j := Join(artists, ", ");
    assert (title + " (") + (j + " - " + year + " - " + subType + ")")
      == title + " (" + j + " - " + year + " - " + subType + ")";
  }

  lemma SpelledOutFileName(name: string)
    requires name == "Blue" + " (" + "A, B" + " - " + "1971" + " - " + "album" + ")"
    ensures name == "Blue (A, B - 1971 - album)"
  {
  }

  /** The file name lays out the title, the artists joined by ", ", the year
      and the sub-type: "Blue" by A and B from 1971, an album, is filed as
      "Blue (A, B - 1971 - album)". */
  lemma ReleaseFileNameExample(m: MusicReleaseModel, artists: seq<string>)
    requires artists == ["A", "B"]
    requires m.fields == map["title" := Str("Blue"), "artists" := StrList(artists),
      "year" := Str("1971"), "subType" := Str("album")]
    ensures m.FileName() == Some("Blue (A, B - 1971 - album)")
  {
    FileNameLayout(m, "Blue", artists, "1971", "album");
    assert Join(artists, ", ") == "A, B" by {
      assert artists[1..] == ["B"];
    }
    SpelledOutFileName("Blue" + " (" + Join(artists, ", ") + " - " + "1971" + " - " + "album" + ")");
  }

  /** A record's `type` is "musicRelease" whatever the argument carried, so
      the tag `{{ type }}` in a template renders as "musicRelease". */
  lemma TypeTagRenders(template: string, obj: map<string, Value>)
    requires template == "{{ type }}"
    ensures Template.ReplaceTags(template, Constructed(obj)) == ReleaseType
  {
    assert Template.IsTag(template);
    Template.WrittenPlainTemplate(template, "type", Constructed(obj));
  }
}
