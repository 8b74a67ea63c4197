/** The page's session state (src/main.ts): the current song, the selected
    languages and the cache of parsed lyrics, with the two handlers that
    change them: the language toggle and `selectSong`. */
module Session {
  import opened Wrappers
  import opened Text
  import opened Tags
  import opened Parser
  import opened Selector

  /** What `selectSong` leaves on screen for a song: the enabled state of
      each language toggle and the lyrics area. */
  datatype Screen = Screen(toggles: map<LangKey, bool>, lyrics: Display)

  /** An id the program treats as "a song is selected": `!currentSongId`
      is true for null and for the empty string. */
  predicate IsSet(id: Option<string>) {
    id.Some? && id.value != []
  }

  class LyricsSession {
    var currentSongId: Option<string>
    var selectedLangs: set<LangKey>
    var lyricsCache: map<string, seq<Row>>
    /** No cached row is empty, as every entry is the parse of a text. */
    ghost predicate CacheValid()
      reads this
    {
      forall id :: id in lyricsCache ==> RowsNonEmpty(lyricsCache[id])
    }

    /** Between two events, the cache is valid and the current song, once
        set, is cached. */
    ghost predicate Valid()
      reads this
    {
      CacheValid() && (currentSongId.Some? ==> currentSongId.value in lyricsCache)
    }

    /** The start-up state: no song, ja, romaji and zh selected, nothing cached. */
    constructor ()
      ensures Valid()
      ensures currentSongId == None && selectedLangs == {Ja, Romaji, Zh} && lyricsCache == map[]
    {
      currentSongId := None;
      selectedLangs := {Ja, Romaji, Zh};
      lyricsCache := map[];
    }

    /** The lyrics area of the current song under the current selection,
        or None when no song is selected (`renderLyrics` returns early). */
    function Shown(): (d: Option<Display>)
      requires Valid()
      reads this
      ensures d.Some? <==> IsSet(currentSongId)
    {
      if IsSet(currentSongId) then Some(Select(lyricsCache[currentSongId.value], selectedLangs))
      else None
    }

    /** The change handler of a language checkbox: the key is added or
        removed, then the lyrics are rendered again. */
    method Toggle(key: LangKey, checked: bool) returns (shown: Option<Display>)
      requires Valid()
      modifies this
      ensures Valid()
      ensures selectedLangs == if checked then old(selectedLangs) + {key} else old(selectedLangs) - {key}
      ensures currentSongId == old(currentSongId) && lyricsCache == old(lyricsCache)
      ensures shown == Shown()
    {
      if checked {
        selectedLangs := selectedLangs + {key};
      } else {
        selectedLangs := selectedLangs - {key};
      }
      shown := None;
      if IsSet(currentSongId) {
        var d := RenderLyrics(lyricsCache[currentSongId.value], selectedLangs);
        shown := Some(d);
      }
    }

    /** The loading branch of `selectSong`: the fetched text is parsed and
        its rows are cached for the song. */
    method CacheLyrics(id: string, body: string)
      requires CacheValid() && id !in lyricsCache
      modifies this
      ensures CacheValid()
      ensures lyricsCache == old(lyricsCache)[id := Parse(body)]
      ensures currentSongId == old(currentSongId) && selectedLangs == old(selectedLangs)
    {
      var rows := ParseTaggedLyrics(body);
      ParseRowsNonEmpty(body);
      lyricsCache := lyricsCache[id := rows];
    }

    /** `selectSong`: nothing happens for the song already shown;
        otherwise the song becomes current, its lyrics are parsed from
        `text` (the fetch result, `None` for a failed fetch) and cached
        unless they are cached already, and the toggles and lyrics are
        redrawn. */
    method SelectSong(id: string, text: Option<string>) returns (screen: Option<Screen>)
      requires Valid()
      modifies this
      ensures Valid()
      ensures old(currentSongId) == Some(id) ==>
        screen == None && currentSongId == old(currentSongId) && lyricsCache == old(lyricsCache)
        && selectedLangs == old(selectedLangs)
      ensures old(currentSongId) != Some(id) ==>
        && currentSongId == Some(id)
        && selectedLangs == old(selectedLangs)
        && lyricsCache == (if id in old(lyricsCache) then old(lyricsCache)
                           else old(lyricsCache)[id := Parse(text.GetOr(""))])
        && screen == (if id == [] then None
                      else Some(Screen(Availability(lyricsCache[id]), Select(lyricsCache[id], selectedLangs))))
    {
      if currentSongId == Some(id) {
        return None;
      }
      currentSongId := Some(id);
      if id !in lyricsCache {
        CacheLyrics(id, text.GetOr(""));
      }
      screen := Redraw(id);
    }

    /** The end of `selectSong`: for a non-empty id, the toggles are
        enabled by availability and the lyrics are rendered. */
    method Redraw(id: string) returns (screen: Option<Screen>)
      requires id in lyricsCache
      ensures screen == if id == [] then None
        else Some(Screen(Availability(lyricsCache[id]), Select(lyricsCache[id], selectedLangs)))
    {
      screen := None;
      if id != [] {
        var rows := lyricsCache[id];
        var lyrics := RenderLyrics(rows, selectedLangs);
        screen := Some(Screen(Availability(rows), lyrics));
      }
    }
  }
}
