/**
 * The glyph cell renderer's font choice. The renderer walks UNICODE_FONTS
 * in order and, with no `break`, sets every entry that is loaded and can
 * display the whole string; the last such entry wins and, when there is
 * none, the label keeps the font it had. `displays(f, s)` stands for
 * `f.canDisplayUpTo(s) == -1`; `None` is an entry whose font file failed to load.
 */
module FontChoice {
  import opened Wrappers
  import opened Utf16

  predicate CanRender<F>(entry: Option<F>, str: seq<CodeUnit>, displays: (F, seq<CodeUnit>) -> bool) {
    entry.Some? && displays(entry.value, str)
  }

  /** Reference definition: the position of the last entry able to render `str`, searching from the end. */
  function LastRenderer<F>(fonts: seq<Option<F>>, str: seq<CodeUnit>, displays: (F, seq<CodeUnit>) -> bool): (r: Option<nat>)
    ensures r.Some? ==> r.value < |fonts| && CanRender(fonts[r.value], str, displays)
    ensures r.Some? ==> forall j :: r.value < j < |fonts| ==> !CanRender(fonts[j], str, displays)
    ensures r.None? ==> forall j :: 0 <= j < |fonts| ==> !CanRender(fonts[j], str, displays)
    decreases |fonts|
  {
    if |fonts| == 0 then None
    else if CanRender(fonts[|fonts| - 1], str, displays) then Some(|fonts| - 1)
    else LastRenderer(fonts[..|fonts| - 1], str, displays)
  }

  /** The renderer's loop over UNICODE_FONTS, front to back, as written. */
  method ChooseFont<F>(fonts: seq<Option<F>>, str: seq<CodeUnit>, current: F, displays: (F, seq<CodeUnit>) -> bool)
    returns (font: F)
    ensures LastRenderer(fonts, str, displays).None? ==> font == current
    ensures LastRenderer(fonts, str, displays).Some? ==> Some(font) == fonts[LastRenderer(fonts, str, displays).value]
  {
    font := current;
    for i := 0 to |fonts|
      invariant LastRenderer(fonts[..i], str, displays).None? ==> font == current
      invariant LastRenderer(fonts[..i], str, displays).Some? ==>
                  Some(font) == fonts[LastRenderer(fonts[..i], str, displays).value]
    {
      assert fonts[..i + 1][..i] == fonts[..i];
      if fonts[i].Some? && displays(fonts[i].value, str) {
        font := fonts[i].value;
      }
    }
    assert fonts[..|fonts|] == fonts;
  }

  /**
   * UNICODE_FONTS: a font built by name (never null) followed by the eight
   * bundled fonts, each of which may have failed to load.
   */
  function UnicodeFonts<F>(windowsFont: F, bundled: seq<Option<F>>): (fonts: seq<Option<F>>)
    requires |bundled| == 8
    ensures |fonts| == 9 && fonts[0] == Some(windowsFont) && fonts[1..] == bundled
  {
    [Some(windowsFont)] + bundled
  }

  /** When the first font can display the string, the label never keeps its previous font. */
  lemma WindowsFontDisplaysImpliesChoice<F>(windowsFont: F, bundled: seq<Option<F>>, str: seq<CodeUnit>,
                                            displays: (F, seq<CodeUnit>) -> bool)
    requires |bundled| == 8 && displays(windowsFont, str)
    ensures LastRenderer(UnicodeFonts(windowsFont, bundled), str, displays).Some?
  {
    assert CanRender(UnicodeFonts(windowsFont, bundled)[0], str, displays);
  }
}
