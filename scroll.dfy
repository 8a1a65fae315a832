/**
 * Scroll mirroring between the editor's text area and the highlighted
 * overlay drawn beneath it: on every scroll of the text area, the overlay
 * takes the text area's vertical and horizontal offsets.
 */
module ScrollSync {

  /** A scrollable element, reduced to its two scroll offsets. */
  class Pane {
    var scrollTop: real
    var scrollLeft: real

    constructor (top: real, left: real)
      ensures scrollTop == top && scrollLeft == left
    {
      scrollTop := top;
      scrollLeft := left;
    }
  }

  /**
   * The scroll listener, set up once both elements exist: `textarea` is the
   * element scrolled by the user, `overlay` the highlighted copy that
   * follows it.
   */
  class ScrollMirror {
    const textarea: Pane
    const overlay: Pane

    constructor (textarea: Pane, overlay: Pane)
      ensures this.textarea == textarea && this.overlay == overlay
    {
      this.textarea := textarea;
      this.overlay := overlay;
    }

    /** The overlay shows the same offsets as the text area. */
    predicate InSync()
      reads textarea, overlay
    {
      overlay.scrollTop == textarea.scrollTop && overlay.scrollLeft == textarea.scrollLeft
    }

    /**
     * `handleScroll`: the overlay takes the text area's offsets, and the
     * text area keeps its own; a mirror already in sync is left as it was.
     */
    method HandleScroll()
      modifies overlay
      ensures overlay.scrollTop == old(textarea.scrollTop)
      ensures overlay.scrollLeft == old(textarea.scrollLeft)
      ensures textarea.scrollTop == old(textarea.scrollTop)
      ensures textarea.scrollLeft == old(textarea.scrollLeft)
      ensures InSync()
      ensures old(InSync()) ==> unchanged(overlay)
    {
      overlay.scrollTop := textarea.scrollTop;
      overlay.scrollLeft := textarea.scrollLeft;
    }
  }
}
