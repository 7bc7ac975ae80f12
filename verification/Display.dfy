/** The two halves of the frame pipeline together: what the render thread draws, and what the overlay
    thread sends. */
module Display {
  import opened FrameRing
  import opened FontMap
  import opened Frame
  import opened Painter
  import opened Picture
  import opened Pipeline
  import opened RenderOnce

  /** If every frame whose drawing finishes is a picture, as RenderOnce makes it, then in every
      interleaving everything that is sent is one, and is read back as its lines. */
  lemma EverythingShownIsAPicture(screen: Screen, buf: seq<seq<int>>, run: seq<Action<seq<int>>>)
    requires screen.Valid() && |buf| == NUM_FRAME_BUFFER
    requires forall k :: 0 <= k < |run| && run[k].Render? && run[k].done ==> IsPicture(screen, run[k].frame)
    ensures var s := Pipeline.Run(Initial(buf), run); forall k :: 0 <= k < |s.sent| ==> IsPicture(screen, s.sent[k])
  {
    ShowsOnly(buf, run, frame => IsPicture(screen, frame));
  }

  // ----- what a frame shows, byte by byte -----

  /** The frame is the picture of these layers. */
  ghost predicate IsShot(s: Screen, frame: seq<int>, g: seq<Sliding>, t: seq<Static>) {
    s.Valid() && |frame| == s.Base(s.height) && Drawable(s, Scene(s, g, t)) && Shows(s, frame, Scene(s, g, t))
  }

  /** An enabled moving text lies over column px of line py. */
  predicate SlidesOver(s: Screen, l: Sliding, px: int, py: int) {
    l.enable && s.width / 20 * l.y <= py < s.width / 20 * (l.y + 1) && l.x <= px < l.x + l.width
  }

  /** A resting one does, whose first column is `left`. */
  predicate RestsOver(s: Screen, l: Static, left: int, px: int, py: int) {
    l.enable && s.width / 20 * l.y <= py < s.width / 20 * (l.y + 1) && left <= px < left + l.validLen
  }

  /** Centred: the rest of the screen is shared out evenly, the odd pixel on the right. */
  predicate IsLeft(s: Screen, l: Static, left: int) {
    if l.validLen <= s.width then 0 <= left && 0 <= (s.width - l.validLen - left) - left <= 1 else left == 0
  }

  ghost predicate RestsUncovered(s: Screen, t: seq<Static>, from: nat, px: int, py: int) {
    forall k, left :: from <= k < |t| && IsLeft(s, t[k], left) ==> !RestsOver(s, t[k], left, px, py)
  }

  lemma CoversSliding(s: Screen, l: Sliding, px: int, py: int)
    requires 0 <= px < s.width
    ensures l.AsSprite().Covers(s, px, py) <==> SlidesOver(s, l, px, py)
  {
    assert s.width / 20 * (l.y + 1) == s.width / 20 * l.y + s.width / 20;
  }

  lemma CoversResting(s: Screen, l: Static, left: int, px: int, py: int)
    requires 0 <= px < s.width && IsLeft(s, l, left)
    ensures l.AsSprite(s).Covers(s, px, py) <==> RestsOver(s, l, left, px, py)
    ensures l.enable ==> l.AsSprite(s).x == left
  {
    assert s.width / 20 * (l.y + 1) == s.width / 20 * l.y + s.width / 20;
  }

  lemma SomeLeft(s: Screen, l: Static) returns (left: int)
    ensures IsLeft(s, l, left)
  {
    left := if l.validLen <= s.width then (s.width - l.validLen) / 2 else 0;
  }

  lemma RestingNotOver(s: Screen, t: seq<Static>, from: nat, k: nat, px: int, py: int)
    requires 0 <= px < s.width && from <= k < |t| && RestsUncovered(s, t, from, px, py)
    ensures !t[k].AsSprite(s).Covers(s, px, py)
  {
    var left := SomeLeft(s, t[k]);
    CoversResting(s, t[k], left, px, py);
  }

  /** Where byte px of line py is. */
  predicate IsPlace(s: Screen, px: nat, py: nat, at: nat) {
    px < s.width + 2 && py < s.height && at == py * (s.width + 2) + px
  }

  lemma ByteIsColour(s: Screen, frame: seq<int>, scene: seq<Sprite>, px: nat, py: nat, at: nat)
    requires s.Valid() && |frame| == s.Base(s.height) && Drawable(s, scene) && Shows(s, frame, scene)
    requires IsPlace(s, px, py, at)
    ensures at < |frame| && frame[at] == Colour(s, scene, px, py)
  {
    assert ShowsAt(s, frame, scene, px, py);
    BaseIsProduct(s, py);
    AtInRange(s, px, py);
    ImageIsItsLines(s);
  }

  lemma TopIsShown(s: Screen, frame: seq<int>, scene: seq<Sprite>, top: nat, px: nat, py: nat, at: nat)
    requires s.Valid() && |frame| == s.Base(s.height) && Drawable(s, scene) && Shows(s, frame, scene)
    requires top < |scene| && scene[top].Covers(s, px, py)
    requires forall k :: top < k < |scene| ==> !scene[k].Covers(s, px, py)
    requires IsPlace(s, px, py, at)
    ensures at < |frame| && frame[at] == scene[top].Pixel(s, px, py)
  {
    TopmostWins(s, scene, px, py);
    ByteIsColour(s, frame, scene, px, py, at);
  }

  /** Row i, column j of a layer's map belongs at column px of line py. */
  predicate Belongs(s: Screen, left: int, y: nat, i: nat, j: nat, px: nat, py: nat) {
    i < s.width / 20 && py == s.width / 20 * y + i && px == left + j < s.width
  }

  lemma MovingPixel(s: Screen, l: Sliding, i: nat, j: nat, px: nat, py: nat)
    requires s.Valid() && l.AsSprite().Valid(s) && l.enable && j < l.width && Belongs(s, l.x, l.y, i, j, px, py)
    ensures py < s.height && i < |l.pixels| && j < |l.pixels[i]|
    ensures l.AsSprite().Covers(s, px, py) && l.AsSprite().Pixel(s, px, py) == l.pixels[i][j]
  {
    RowFits(s, l.AsSprite());
  }

  lemma RestingPixel(s: Screen, l: Static, left: int, i: nat, j: nat, px: nat, py: nat)
    requires s.Valid() && l.AsSprite(s).Valid(s) && l.enable && IsLeft(s, l, left) && j < l.validLen
    requires Belongs(s, left, l.y, i, j, px, py)
    ensures py < s.height && i < |l.pixels| && j < |l.pixels[i]|
    ensures l.AsSprite(s).Covers(s, px, py) && l.AsSprite(s).Pixel(s, px, py) == l.pixels[i][j]
  {
    CoversResting(s, l, left, px, py);
    RowFits(s, l.AsSprite(s));
  }

  lemma MovingNotOver(s: Screen, g: seq<Sliding>, t: seq<Static>, c: int, px: int, py: int)
    requires 0 <= px < s.width && RestsUncovered(s, t, 0, px, py)
    requires forall k :: 0 <= k < |g| && c < k ==> !SlidesOver(s, g[k], px, py)
    ensures forall k :: 0 <= k < |g| + |t| && c < k ==> !Scene(s, g, t)[k].Covers(s, px, py)
  {
    forall k | 0 <= k < |g| + |t| && c < k
      ensures !Scene(s, g, t)[k].Covers(s, px, py)
    {
      if k < |g| {
        CoversSliding(s, g[k], px, py);
      } else {
        RestingNotOver(s, t, 0, k - |g|, px, py);
      }
    }
  }

  lemma NoneRestsOver(s: Screen, g: seq<Sliding>, t: seq<Static>, c: nat, px: int, py: int)
    requires 0 <= px < s.width && c < |t| && RestsUncovered(s, t, c + 1, px, py)
    ensures forall k :: |g| + c < k < |g| + |t| ==> !Scene(s, g, t)[k].Covers(s, px, py)
  {
    forall k | |g| + c < k < |g| + |t|
      ensures !Scene(s, g, t)[k].Covers(s, px, py)
    {
      RestingNotOver(s, t, c + 1, k - |g|, px, py);
    }
  }

  /** Row i, column j of a moving text's map is the byte of the screen at its place, where it is on the
      screen and no layer drawn later lies over it. */
  lemma MovingTextIsShown(s: Screen, frame: seq<int>, g: seq<Sliding>, t: seq<Static>, c: nat,
                          i: nat, j: nat, px: nat, py: nat, at: nat)
    requires IsShot(s, frame, g, t) && c < |g| && g[c].enable && j < g[c].width
    requires Belongs(s, g[c].x, g[c].y, i, j, px, py) && at == py * (s.width + 2) + px
    requires (forall k :: c < k < |g| ==> !SlidesOver(s, g[k], px, py)) && RestsUncovered(s, t, 0, px, py)
    ensures at < |frame| && i < |g[c].pixels| && j < |g[c].pixels[i]| && frame[at] == g[c].pixels[i][j]
  {
    var scene := Scene(s, g, t);
    assert scene[c] == g[c].AsSprite() && scene[c].Valid(s);
    MovingPixel(s, g[c], i, j, px, py);
    MovingNotOver(s, g, t, c, px, py);
    TopIsShown(s, frame, scene, c, px, py, at);
  }

  /** So is that of a resting text, counted from its centred first column. */
  lemma RestingTextIsShown(s: Screen, frame: seq<int>, g: seq<Sliding>, t: seq<Static>, c: nat, left: int,
                           i: nat, j: nat, px: nat, py: nat, at: nat)
    requires IsShot(s, frame, g, t) && c < |t| && t[c].enable && IsLeft(s, t[c], left) && j < t[c].validLen
    requires Belongs(s, left, t[c].y, i, j, px, py) && at == py * (s.width + 2) + px
    requires RestsUncovered(s, t, c + 1, px, py)
    ensures at < |frame| && i < |t[c].pixels| && j < |t[c].pixels[i]| && frame[at] == t[c].pixels[i][j]
  {
    var scene := Scene(s, g, t);
    assert scene[|g| + c] == t[c].AsSprite(s) && scene[|g| + c].Valid(s);
    RestingPixel(s, t[c], left, i, j, px, py);
    NoneRestsOver(s, g, t, c, px, py);
    TopIsShown(s, frame, scene, |g| + c, px, py, at);
  }

  /** Where no text lies the byte is 0x1d, and the two bytes after a line's pixels are 0xe, those after
      the last line's 0xf. */
  lemma BareScreenIsBlank(s: Screen, frame: seq<int>, g: seq<Sliding>, t: seq<Static>, px: nat, py: nat, at: nat)
    requires IsShot(s, frame, g, t) && px < s.width + 2 && py < s.height && at == py * (s.width + 2) + px
    requires px < s.width ==>
      (forall k :: 0 <= k < |g| ==> !SlidesOver(s, g[k], px, py)) && RestsUncovered(s, t, 0, px, py)
    ensures at < |frame|
    ensures frame[at] == if px < s.width then 0x1d else if py + 1 < s.height then 0xe else 0xf
  {
    if px < s.width {
      MovingNotOver(s, g, t, -1, px, py);
    }
    TopmostWins(s, Scene(s, g, t), px, py);
    ByteIsColour(s, frame, Scene(s, g, t), px, py, at);
  }
}
