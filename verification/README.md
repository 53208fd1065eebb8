# Animated avatars, login state and assets of a desktop Bilibili client

This project models, in Dafny, the stateful core of a desktop client for
Bilibili written in Rust on the GPUI toolkit:

- **Animated avatars** (`animated_avatar.dfy`, module `AnimatedAvatar`).
  - Building an avatar picks a fallback image source. For an existing
    `.webp`/`.gif` file it does a check-and-set on a process-wide status cache
    and starts at most one decode worker per path.
  - The worker classifies the file as `Static` or `Animated`. It decodes the
    frames, computing each frame's delay from the timestamps with a 100 ms
    default and a 16 ms floor. It then seeds a play state.
  - Every render takes one step of the play state machine: a warm-up pass of
    one frame per render, then playback that advances at most one frame per
    render once the current frame's delay has elapsed. It draws the selected
    frame, or the fallback image while the status is `Checking` or `Static`.
  - The two global maps are the fields of one `AvatarEngine` object, and each
    locked section is one of its methods. A ghost log of dispatched paths
    shows that no path gets two workers.
- **Application state** (`app_state.dfy`, module `State`). `AppState` is a
  class whose setters and toggles change one field each. `cookie_header`
  builds the `Cookie` request header. `persist_login` returns the record it
  would save.
- **Login flow** (`home.dfy`, module `Home`).
  - The nested loops read the login cookies out of the Set-Cookie headers of
    a successful QR poll. They are proved equal to a recursive definition of
    the parse (`Home.ApplyHeaders`), one prefix of the headers at a time.
  - Each poll code and the logout button update `AppState` in a fixed way.
  - A round-trip lemma shows that a cookie header built by `cookie_header`,
    returned as a Set-Cookie header, parses back to the same cookies.
- **Embedded assets** (`assets.dfy`, module `Assets`). Path normalisation
  and prefix stripping for `load`, and the prefix filter of `list`.

`text.dfy` (module `Text`) models the parts of Rust's `str` API the core
uses: `to_lowercase` on ASCII, `strip_prefix`, `trim_start_matches`, `trim`,
`split`, `split_once` and `join`. `wrappers.dfy` holds `Option` and `Result`.

In three places the code does something other than what the comment beside
it says. The model follows the code:

- The comment at src/components/animated_avatar.rs:153 says that more than one
  frame makes an animation. The count at :152 covers every decoded frame,
  before any is converted to an image. So a file with two frames, of which
  only one converts, is published as `Animated` with one frame. See
  `AnimatedAvatar.SingleSurvivingFrameIsAnimated`.
- The comment at :185 calls 100 ms the default delay. The test at :184 asks
  whether the previously seen timestamp is 0, not whether the frame is the
  first. So every frame seen right after a timestamp of 0 gets 100 ms. When a
  stream's first timestamp is 0, the second frame also gets 100 ms. See
  `AnimatedAvatar.ScenarioDelays`.
- The comment at :254 says that the first frame is shown during warm-up.
  Line 255 draws frame `min(warmup_frame, n - 1)` of the advanced warm-up
  index, so each warm-up render draws the next frame.

## Model

| member | source | states |
|---|---|---|
| AnimatedAvatar.FrameDelay | src/components/animated_avatar.rs:183-188 | A delay is never below 16 ms. It is 100 ms when the previous timestamp is 0. Otherwise it is the gap to the previous timestamp, raised to 16 ms when the gap is smaller (including a timestamp that goes backwards). |
| AnimatedAvatar.DecodedAligned | src/components/animated_avatar.rs:171-205 | The decoded frames and delays have the same length, and every delay is at least 16 ms. |
| AnimatedAvatar.DecodedFrameOrigin | src/components/animated_avatar.rs:175-205 | Each decoded frame comes from a stream frame that converts, in stream order. Its delay is computed from the timestamp seen just before that frame, even when that frame was dropped. A stream frame is kept exactly when it converts. |
| AnimatedAvatar.DecodedEmptyIff | src/components/animated_avatar.rs:193-209 | The decode yields no frame exactly when no stream frame converts. |
| AnimatedAvatar.ScenarioDelays | src/components/animated_avatar.rs:184-189 | Timestamps 0, 100, 250, 300, 420 give delays 100, 100, 150, 50, 120. |
| AnimatedAvatar.DecodeWebpAnimation | src/components/animated_avatar.rs:161-215 | `None` when the file cannot be read or opened, or when no frame converts. Otherwise it returns the decode that `AnimatedAvatar.Decoded` defines, with frames and delays paired and at least one frame. |
| AnimatedAvatar.IsCandidate | src/components/animated_avatar.rs:64-65 | Detection is tried only for an existing file whose lower-cased path ends in `.webp` or `.gif`. A candidate therefore exists, and its path has at least four characters. |
| AnimatedAvatar.CandidateIgnoresCase | src/components/animated_avatar.rs:64-65 | The extension test ignores ASCII case: two paths that match ignoring ASCII case are candidates alike, and so are a path and its lower-cased form. |
| AnimatedAvatar.IsAnimatedSync | src/components/animated_avatar.rs:138-158 | The verdict holds exactly when the file reads, the decoder opens and it yields more than one frame. |
| AnimatedAvatar.IsAnimatedWebpSync | src/components/animated_avatar.rs:138-158 | Counting the decoder's frames gives false for an unreadable or undecodable file. Otherwise it gives true exactly when there are at least two frames. |
| AnimatedAvatar.Classify | src/components/animated_avatar.rs:103-133 | The worker's verdict is never `Checking`. It is `Animated` exactly when the file has more than one frame and some frame converts. The published animation is well formed and equals the decode. |
| AnimatedAvatar.SingleSurvivingFrameIsAnimated | src/components/animated_avatar.rs:105-110 | Two decoded frames of which one converts give a one-frame `Animated` status with the 100 ms delay. |
| AnimatedAvatar.Seed | src/components/animated_avatar.rs:115-120 | The seeded play state (frame 0, warm-up at 0) fits any animation with at least one frame. |
| AnimatedAvatar.RenderTick | src/components/animated_avatar.rs:235-276 | One render keeps the play state within the frame count and draws an existing frame. A playing state stays playing, keeps its warm-up index and moves at most one frame on, modulo the frame count. |
| AnimatedAvatar.WarmupStep | src/components/animated_avatar.rs:242-258 | A warm-up render raises the warm-up index by exactly one. Playback starts, at frame 0 and from now, exactly when the index reaches the frame count. Otherwise the frame and clock are untouched. It draws frame `min(index, n - 1)`. |
| AnimatedAvatar.PlayingStep | src/components/animated_avatar.rs:263-276 | A playing render moves to `(current + 1) mod n` and restarts the clock exactly when the elapsed time reaches the current delay (100 ms if there is none). Otherwise nothing changes. It draws the frame it ends on. |
| AnimatedAvatar.Run | src/components/animated_avatar.rs:235-276 | Any sequence of renders keeps the play state within the frame count. |
| AnimatedAvatar.WarmupTakesFrameCountRenders | src/components/animated_avatar.rs:242-252 | From a seeded state, warm-up lasts exactly n renders whatever the clock says, and playback then starts at frame 0 from the n-th render's time. |
| AnimatedAvatar.PlayingAdvance | src/components/animated_avatar.rs:270-273 | A playing render whose delay has surely elapsed moves from frame `(c + k) mod n` to `(c + k + 1) mod n` and restarts the clock at now. |
| AnimatedAvatar.PlayingCycles | src/components/animated_avatar.rs:265-274 | When renders come at least one full delay apart, each render advances one frame: after k renders the frame is `(current + k) mod n`, and the clock is the last render's time. |
| AnimatedAvatar.ReplacePlayState | src/components/animated_avatar.rs:238-276 | Replacing the play state of an animated path with one that fits its frame count keeps the engine invariant: every play state belongs to an animated path and fits it. |
| AnimatedAvatar.PublishVerdict | src/components/animated_avatar.rs:105-133 | Publishing a worker verdict for a `Checking` path, and seeding a play state for an animated path that has none, keeps the engine invariant. |
| AnimatedAvatar.AvatarEngine.constructor | src/components/animated_avatar.rs:17-23 | Both process-wide maps start empty, and the engine invariant holds. |
| AnimatedAvatar.AvatarEngine.NewAvatar | src/components/animated_avatar.rs:51-97 | The fallback is the file path when the file exists, else the string itself. A worker is dispatched exactly for a candidate path (lower-cased `.webp`/`.gif`, file exists) not yet in the cache, and that path is then marked `Checking`. Otherwise nothing changes. No path is ever dispatched twice. |
| AnimatedAvatar.AvatarEngine.CheckAndDecode | src/components/animated_avatar.rs:100-135 | `Checking` is replaced by the file's verdict. On `Animated`, a play state is seeded only when none exists. No other entry changes, and the engine invariant is kept. |
| AnimatedAvatar.AvatarEngine.Render | src/components/animated_avatar.rs:226-298 | An animated path takes one `RenderTick` step and draws the selected frame. `Checking`, `Static` or an unknown path draws the fallback and changes nothing. The cache never changes. |
| State.Toggled | src/state/app_state.rs:69-74 | The toggled theme always differs from the current one. |
| State.ToggledTwice | src/state/app_state.rs:69-74 | Toggling twice gives the original theme. |
| State.CookiePart | src/state/app_state.rs:86-89 | A present optional cookie gives exactly one `name=value` part. An absent one gives none. |
| State.HeaderParts | src/state/app_state.rs:85-90 | The header has one part per present optional cookie plus one, and `SESSDATA=…` is always last. |
| State.AppState.constructor | src/state/app_state.rs:31-44 | A new state is on the home page, in the dark theme, logged out, with every optional field empty. |
| State.AppState.SetPage | src/state/app_state.rs:57-59 | Only the page changes. |
| State.AppState.SetTheme | src/state/app_state.rs:65-67 | Only the theme changes. |
| State.AppState.ToggleTheme | src/state/app_state.rs:69-74 | The theme flips, and nothing else changes. |
| State.AppState.SetLoggedIn | src/state/app_state.rs:79 | Only the login flag changes. |
| State.AppState.SetCookies | src/state/app_state.rs:80 | Only the cookies change, to `Some`. |
| State.AppState.SetUser | src/state/app_state.rs:81 | Only the user changes, to `Some`. |
| State.AppState.CookieHeader | src/state/app_state.rs:83-92 | No header exactly when there are no cookies. Otherwise the present optional cookies in fixed order, then SESSDATA, joined by `"; "`. |
| State.AppState.PersistLogin | src/state/app_state.rs:94-101 | The saved record holds the login flag and user as they are, and the cookies or the default cookies when there are none. |
| State.AppState.SetQrStarted | src/state/app_state.rs:105 | Only the QR-started flag changes. |
| State.AppState.SetQrcodeKey | src/state/app_state.rs:107 | Only the QR key changes. |
| State.AppState.SetQrSvg | src/state/app_state.rs:109 | Only the QR image changes. |
| State.AppState.SetQrStatus | src/state/app_state.rs:111 | Only the status text changes. |
| State.AppState.SetUserMenuOpen | src/state/app_state.rs:115 | Only the menu flag changes. |
| State.AppState.ToggleUserMenu | src/state/app_state.rs:116 | The menu flag flips, and nothing else changes. |
| State.ToggleThemeTwice | src/state/app_state.rs:69-74 | Toggling the theme twice leaves the whole state unchanged. |
| State.ToggleUserMenuTwice | src/state/app_state.rs:116 | Toggling the menu twice leaves the whole state unchanged. |
| Assets.Normalize | src/assets.rs:19-22 | The normalised path is a suffix of the input and does not start with `./`. |
| Assets.AssetKey | src/assets.rs:19-29 | The lookup key is a suffix of the input path. |
| Assets.AtMostOnePrefixRemoved | src/assets.rs:23-29 | After normalising, exactly one `assets/` is removed if present, else one `assets\` if present, else nothing. |
| Assets.AssetsPrefixIsOptional | src/assets.rs:18-29 | A plain name (such as `logo.png`) and the same name under `assets/` have the same key, the name itself. |
| Assets.LeadingSlashIgnored | src/assets.rs:20 | A leading `/` does not change the key. |
| Assets.Load | src/assets.rs:17-34 | Success exactly when the key is embedded, and then it returns `Some` of that file's bytes, never `Ok(None)`. Otherwise an error naming the requested path. |
| Assets.List | src/assets.rs:36-46 | A name is listed exactly when it is embedded and starts with the prefix. |
| Assets.ListKeepsOrder | src/assets.rs:37-45 | The listing keeps the iteration order: listing two runs of names gives their listings one after the other. |
| Assets.ListAll | src/assets.rs:36-46 | The empty prefix lists every name, in order. |
| Text.Lowercase | src/components/animated_avatar.rs:64 | The lower-cased path has the same length and holds no ASCII capital. It differs from the input exactly where the input has an ASCII capital, and there it holds the matching small letter. |
| Text.LowercaseIdempotent | src/components/animated_avatar.rs:64 | Lower-casing twice gives the same as lower-casing once. |
| Text.StartsWith | src/assets.rs:39 | The text begins with the prefix: the prefix is no longer than the text and equals its front. |
| Text.EndsWith | src/components/animated_avatar.rs:65 | The text ends with the suffix: the suffix is no longer than the text and equals its back. |
| Text.EqIgnoreAsciiCase | src/views/home.rs:136 | Two texts match exactly when they have the same length and agree at every position once ASCII capitals are lowered. |
| Text.TrimStart | src/views/home.rs:139 | The result is a suffix of the input that does not start with whitespace, and every character removed is whitespace. |
| Text.TrimEnd | src/views/home.rs:139 | The result is a prefix of the input that does not end with whitespace, and every character removed is whitespace. |
| Text.Trim | src/views/home.rs:139 | The trimmed text neither starts nor ends with whitespace. |
| Text.TrimCutsWhitespace | src/views/home.rs:139 | The trimmed text sits inside the input with only whitespace before and after it. |
| Text.TrimIdempotent | src/views/home.rs:139 | Trimming twice gives the same as trimming once. |
| Text.Join | src/state/app_state.rs:91 | The pieces with one separator between each adjacent pair. `Text.Split` and `Text.SplitJoined` take it apart again. |
| Text.JoinEnds | src/state/app_state.rs:91 | A join of at least one piece starts with the first piece and ends with the last. |
| Text.StripPrefix | src/assets.rs:23-27 | Some exactly when the prefix is present, and then the prefix plus the rest is the input. |
| Text.TrimStartMatches | src/assets.rs:19-22 | The result is a suffix of the input that no longer starts with the pattern. |
| Text.TrimStartMatchesRemovesCopies | src/assets.rs:19-22 | What is removed is exactly a run of copies of the pattern. |
| Text.Split | src/views/home.rs:138 | There is at least one piece, no piece contains the separator, and joining the pieces with it gives the input back. |
| Text.SplitOnce | src/views/home.rs:140 | None exactly when there is no `=`. Otherwise the key holds no `=`, and key, `=`, value make up the input. |
| Text.SplitJoined | src/views/home.rs:138 | Splitting parts joined with `"; "` on `;` gives the parts back, each after the first with one blank in front. |
| Home.VisibleAscii | src/views/home.rs:137 | A header value `to_str` accepts: every character is a visible ASCII character, a space or a tab. |
| Home.Assign | src/views/home.rs:141-148 | A known cookie name sets that field to the value and leaves every other field alone. An unknown name changes nothing. |
| Home.ApplyPiece | src/views/home.rs:139-149 | A piece without `=` after trimming is skipped. Otherwise its name and value are assigned. |
| Home.ParseSetCookies | src/views/home.rs:135-152 | The nested loops compute the parse of the headers that `Home.ApplyHeaders` defines, starting from the default cookies. |
| Home.ApplyPiecesAppend | src/views/home.rs:138-150 | Pieces are applied strictly in order: two runs apply as the first, then the second. |
| Home.UnnamedFieldKept | src/views/home.rs:141-148 | A field that no piece names keeps its value. |
| Home.LastOccurrenceWins | src/views/home.rs:138-150 | Within one header line, when a name occurs several times, its last occurrence decides the field. |
| Home.ApplyHeadersAppend | src/views/home.rs:136-151 | Headers are applied strictly in order: two runs apply as the first, then the second. |
| Home.HeaderFillsField | src/views/home.rs:136-151 | After a readable Set-Cookie header whose piece `j` is the last in its line to name a cookie, that cookie holds the piece's value. |
| Home.LaterHeadersKeepField | src/views/home.rs:136-151 | Headers that do not name a cookie, coming after a given header, leave that cookie's field as it was after that header. |
| Home.LastHeaderWins | src/views/home.rs:135-152 | Across Set-Cookie headers, the last occurrence of a name decides its field: its last piece in the last header that names it. |
| Home.AbsentCookieKeepsDefault | src/views/home.rs:135-152 | A cookie that no readable Set-Cookie header names keeps its starting value: SESSDATA stays empty and the others stay absent. |
| Home.OtherHeadersIgnored | src/views/home.rs:136-137 | Headers not named set-cookie (in any ASCII case), or whose value is not visible ASCII, have no effect. |
| Home.ApplyPiecesUpToTrim | src/views/home.rs:139 | Pieces that trim to the same text have the same effect. |
| Home.JoinedPartsReadBack | src/views/home.rs:138-140 | Clean parts joined with `"; "`, split on `;` and applied act as the parts themselves. |
| Home.HeaderPartsReadBack | src/state/app_state.rs:85-90 | The parts of a cookie header, applied to the default cookies, rebuild the cookies. |
| Home.CookieHeaderRoundTrip | src/views/home.rs:135-152 | The header `cookie_header` builds, returned as one Set-Cookie header, parses to the same cookies. This holds when no value contains `;`, every value is visible ASCII, and no value ends in whitespace. |
| Home.PollGuard | src/views/home.rs:80-88 | Past 180 s the status becomes the time-out message and the loop stops. Otherwise it polls with the stored key, or stops when there is none, and changes nothing. |
| Home.OnQrIssued | src/views/home.rs:71-75 | A new QR code stores its key and image and asks the user to scan it. Nothing else changes. |
| Home.OnLoginSuccess | src/views/home.rs:154-159 | Login stores the cookies, sets the login flag and reports success. The persisted record holds those cookies, the login flag and the unchanged user. |
| Home.OnQrExpired | src/views/home.rs:165-171 | An expired code sets the refreshing status and clears the started flag, the image and the key. Nothing else changes. |
| Home.OnQrScanned | src/views/home.rs:212-214 | Scanning changes only the status text. |
| Home.Logout | src/views/home.rs:376-389 | Logout clears the login flag, stores the default cookies and an empty profile, and clears the QR flow. The persisted record says logged out, with default cookies and the empty profile. |
| Home.HandlePollReply | src/views/home.rs:122-219 | A non-zero code or a reply without data changes nothing and polls again. Code 0 logs in with the parsed cookies and stops. 86038 expires the code and requests a new one. 86090 marks it scanned. Any other code changes nothing. |

## Left out

- Threads and locks: each locked section is one atomic method of `AvatarEngine`. The decode worker's two sections run as one step here. The source drops the cache lock after publishing `Animated` and then takes the play-state lock, so a render in that window finds no play state and its `unwrap` panics. The model does not capture that window.
- Play states are values in a map that `Render` replaces. The source mutates the entry in place through `get_mut`, which has the same observable effect.
- The file system, the WebP decoder and the RGBA-to-PNG re-encode are a parameter: an optional sequence of frames, each with a timestamp and a flag saying whether it converts. `is_animated_webp_sync` and `decode_webp_animation` read the file twice; the model gives both the same contents.
- Timestamps are non-negative milliseconds. The decoder's signed timestamps cast to `u64` are not modelled for negative values. `Instant` is a number of milliseconds passed in by the caller, and `elapsed` saturates at 0.
- `to_lowercase` lowers ASCII letters only. The only suffixes the code checks for (`.webp`, `.gif`) are ASCII.
- `AnimatedAvatar.AvatarEngine.Render`: the avatar's `size` and the `size` builder only affect layout (`Pixels`) and are not modelled.
- The getters of `AppState` return a field unchanged and are not modelled separately.
- `AppState::new`'s load of `bili_cookies.json` from disk, and the file write in `persist_login`, are not modelled. `PersistLogin` returns the record it would write.
- HTTP requests, JSON decoding, QR-code rendering to SVG, the 2-second poll timer and `fetch_user_info` are not modelled. A poll reply is its top-level code and optional inner code. The SVG is a byte sequence.
- `Home.HandlePollReply`: the QR re-request after 86038 (`RequestNewQr`) is a result for the caller. Its state change is `Home.OnQrIssued`.
- `Home.Logout`: the profile literal at src/views/home.rs:380-384 omits `face_local`. The model stores an empty profile with `face_local` also empty.
- The rest of the UI (layout, icons, tray, theme colours) is not part of this model.
