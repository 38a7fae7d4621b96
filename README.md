# LearninGo session timer and share post, in Dafny

This project models two pieces of the LearninGo app:

- **The study-session timer** (`SessionTimer` component). It has four pieces of state: `isActive`, `isPaused`, `time` in seconds, and `lastActivity` as a millisecond timestamp. It has three buttons (start, pause/resume, stop) and a once-a-second interval. The interval stops the session after more than two minutes without a user action. The timer also has three read-outs: the `MM:SS` clock, the progress-bar fraction, and the "N% of target completed" figure. When a session stops with time on the clock, the optional `onSessionComplete` callback receives the whole minutes.
- **The share post** (`generateLearningPost`). It builds a header naming the user and the period, one bullet line per topic, an optional block of trophy lines for achievements, and a fixed line of hashtags.

Files:

- `Wrappers.dfy`: `Option`.
- `TimerDisplay.dfy`: `formatTime`, the progress fraction, the bar width and the percent figure, as pure functions with their lemmas.
- `SessionTimer.dfy` has two parts:
  - the timer state as a datatype, one `Step` per action and `Run` over a sequence of actions, with lemmas about whole runs;
  - the class `Component`, which holds the state in mutable fields as the component does. Each handler is proved to update the fields as `Step` says.
- `ShareTemplate.dfy`: the post builder. It also has `JoinLines` and `SplitLines` (the model of `join('\n')` and of its inverse `split('\n')`), and lemmas that tie the post to its lines.

Modelling choices:

- The wall clock (`Date.now()`) is a `now` parameter of each action.
- `setInterval` is modelled as a `Tick(now)` action. A tick does something only while the timer is active and unpaused, which is the only state in which the effect installs an interval.
- Whether `onSessionComplete` was passed is a flag. A call of the callback is the `Some(minutes)` that a handler returns.
- JavaScript numbers are modelled as exact values: `time` as an integer, the progress fraction as a `real`, and `Math.floor` of a quotient of non-negative integers as integer division.

### Behaviour of the code worth noting

- **Start does not reset `time`.** `handleStart` (components/SessionTimer.tsx:40-44) only sets `isActive`, `isPaused` and `lastActivity`. From an idle timer `time` is already 0, because every stop resets it (`Inv`). Pressed while paused, start resumes with the time kept, so a second start does not restart from zero. The UI, however, shows the Start button only while the timer is inactive.
- **Pause has no guard.** `handlePause` flips `isPaused` in any state, so it has no precondition here.
- **Ticks are not user activity.** `lastActivity` changes only on start and pause. A running session is therefore stopped by the first tick that comes more than 120000 ms after the last button press.
  - The interval is installed only after the render that follows the press, and it is installed again after every tick, because `time` is a dependency of the effect. So the k-th tick comes no earlier than `1000 * k` ms after the press.
  - Any such schedule counts at most 120 ticks, and the session is stopped by the 121st tick at the latest. The callback receives the minutes of the ticks counted, never more than `(time + 120) / 60` (`AutoStopWithinTwoMinutes`). So a run of 600 uninterrupted ticks followed by a stop cannot happen.
  - If every tick is exactly on time, 120 ticks count and the 121st stops the session (`AutoStopAfterTwoMinutes`). A session started from zero then reports 2.
  - One millisecond of lateness on every tick means only 119 ticks count and the 120th stops the session, reporting `(time + 119) / 60`: 1 for a session started from zero (`LateTicksStopAtTheHundredTwentieth`).

## Model

| member | source | states |
|---|---|---|
| SessionTimer.Component.constructor | components/SessionTimer.tsx:10-14 | Mounting gives an inactive, unpaused timer at 0 seconds, stamped with the mount time. The target defaults to 45 minutes when none is given. The invariant holds. |
| SessionTimer.Initial | components/SessionTimer.tsx:11-14 | The mount state satisfies the invariant and has no interval running. |
| SessionTimer.Component.HandleStart | components/SessionTimer.tsx:40-44 | The timer becomes active and unpaused, stamped now. `time` is unchanged, and it is 0 when the timer was inactive. The new state is `Step` of `Start(now)`. |
| SessionTimer.Component.HandlePause | components/SessionTimer.tsx:46-49 | `isPaused` flips and `lastActivity` becomes now, in any state. `isActive` and `time` are unchanged. The new state is `Step` of `Pause(now)`. |
| SessionTimer.Component.HandleStop | components/SessionTimer.tsx:51-58 | The timer becomes inactive and unpaused at 0 seconds, with `lastActivity` kept. The callback is called exactly when it exists and `time > 0`, and then with `floor(time / 60)`. The result equals `Step` of `Stop`. |
| SessionTimer.Component.Tick | components/SessionTimer.tsx:19-30 | There are three cases. (1) A timer that is not running is left unchanged and reports nothing. (2) A running timer stops as `handleStop` does when `now - lastActivity > 120000`. (3) Otherwise exactly one second is added and nothing is reported. The result equals `Step` of `Tick(now)`. |
| SessionTimer.Component.Progress | components/SessionTimer.tsx:66 | The component's progress fraction, computed from its own `time` and `targetDuration`, is between 0 and 1. It is exactly 1 iff `time >= 60 * targetDuration`. |
| SessionTimer.Component.PercentComplete | components/SessionTimer.tsx:81 | The component's percent figure is the floor of `time * 100 / (60 * targetDuration)`. It is at least 100 iff the target is reached. |
| SessionTimer.Component.Clock | components/SessionTimer.tsx:72 | Reading the displayed clock text back gives the component's `time`. |
| SessionTimer.Inv | components/SessionTimer.tsx:13-57 | The invariant: `time` is never negative, and an inactive timer holds 0 seconds (`time` starts at 0 at :13, only grows at :29, and is reset with every deactivation at :57). `Initial`, `Step` and `RunKeepsInv` state that it holds. |
| SessionTimer.StopStep | components/SessionTimer.tsx:51-58 | A stop leaves the timer inactive, unpaused, not running and at 0 seconds, with `lastActivity` kept. It reports iff there is a callback and `time > 0`, and then it reports `time / 60`. |
| SessionTimer.Step | components/SessionTimer.tsx:19-58 | One action keeps `Inv`. A report only comes from a stop or a tick, only with a callback and `time > 0`, is `time / 60`, and leaves the timer inactive at 0. Start and pause stamp their instant and keep `time`. A tick leaves `time` as it was, adds one second, or resets it to 0. |
| SessionTimer.RunKeepsInv | components/SessionTimer.tsx:19-58 | After any sequence of starts, pauses, stops and ticks, `time >= 0`, and an inactive timer shows 0. |
| SessionTimer.RunAppend | components/SessionTimer.tsx:19-58 | Running two action sequences one after the other equals running their concatenation, in final state and in the order of reports. |
| SessionTimer.NoCallbackNoReports | components/SessionTimer.tsx:54-56 | Without `onSessionComplete`, no action sequence reports anything. |
| SessionTimer.ReportsBoundedByTicks | components/SessionTimer.tsx:29-57 | Over any run, the reported minutes times 60 plus the seconds still on the clock never exceed the starting seconds plus the number of ticks. No report is negative. |
| SessionTimer.IdleTicksChangeNothing | components/SessionTimer.tsx:19-33 | Ticks leave an inactive or paused timer exactly as it was and report nothing. |
| SessionTimer.ActiveTicksCount | components/SessionTimer.tsx:24-29 | While running, ticks within 120000 ms of the last user action each add exactly one second and report nothing. |
| SessionTimer.OnTimeCount | components/SessionTimer.tsx:24 | The number of leading ticks that come at most 120000 ms after the last user action. Every tick before that index is on time, and the tick at it, if there is one, is late. |
| SessionTimer.OnTimeCountAt | components/SessionTimer.tsx:24 | When the first late tick is at index `j`, `OnTimeCount` is `j`. |
| SessionTimer.TicksUntilLate | components/SessionTimer.tsx:19-30 | For any tick instants on a running timer, each on-time tick adds one second. The first late tick stops the timer and reports the seconds counted, divided by 60, when there is a callback and time. Ticks after it change nothing. |
| SessionTimer.AutoStopWithinTwoMinutes | components/SessionTimer.tsx:16-43 | Take more than 120 ticks on a running timer, the k-th no earlier than `1000 * k` ms after the last user action, however late. At most 120 of them are counted, the timer ends idle at 0, and it reports once, when there is a callback and time. The report lies between `time / 60` and `(time + 120) / 60`. |
| SessionTimer.AutoStopAfterTwoMinutes | components/SessionTimer.tsx:23-30 | With every tick exactly on time, a running timer left alone counts 120 ticks and stops at the 121st. With a callback it reports `(time + 120) / 60` once, and it stays stopped after that. |
| SessionTimer.LateTicksStopAtTheHundredTwentieth | components/SessionTimer.tsx:23-30 | With every tick 1 ms late, a running timer counts 119 ticks and stops at the 120th. With a callback it reports `(time + 119) / 60`. |
| SessionTimer.StopTruncatesToMinutes | components/SessionTimer.tsx:54-55 | Start, 119 ticks, then stop: the callback receives 1 and the timer is back to idle at 0. |
| SessionTimer.Ticks | components/SessionTimer.tsx:20-30 | A tick at each given instant, in order. |
| SessionTimer.EverySecond | components/SessionTimer.tsx:30 | Interval instants are 1000 ms apart. |
| TimerDisplay.Decimal | components/SessionTimer.tsx:63 | `toString` of a non-negative integer: at least one digit, all digits, and no leading zero. |
| TimerDisplay.DecimalRoundTrip | components/SessionTimer.tsx:63 | Reading back the decimal digits of `n` gives `n`. |
| TimerDisplay.DecimalLength | components/SessionTimer.tsx:63 | The text has one digit exactly when `n < 10`, and two digits exactly when `10 <= n < 100`. |
| TimerDisplay.PadStart2 | components/SessionTimer.tsx:63 | `padStart(2, '0')`: the length is at least 2, the text ends with the input, and only zeros are added in front. |
| TimerDisplay.FormatTime | components/SessionTimer.tsx:60-64 | `formatTime`: the padded minutes, a colon and the padded seconds. The text has at least five characters, with the colon third from the end. `FormatTimeRoundTrip` and `FormatTimeShape` state its meaning. |
| TimerDisplay.FormatTimeRoundTrip | components/SessionTimer.tsx:60-64 | Parsing `formatTime(s)` as minutes, a colon and two seconds digits gives back `s`. So `formatTime` is injective, and its minutes and seconds are `floor(s / 60)` and `s % 60`. |
| TimerDisplay.FormatTimeShape | components/SessionTimer.tsx:60-64 | The clock text has a colon third from the end and at least five characters. It has exactly five, `MM:SS`, iff `s < 6000`. Beyond that, the minutes field simply grows. |
| TimerDisplay.ParseClock | components/SessionTimer.tsx:63 | A clock text that parses has at least four characters and a colon third from the end. |
| TimerDisplay.Progress | components/SessionTimer.tsx:66 | The progress fraction is between 0 and 1. It is exactly 1 iff `time >= 60 * targetDuration`. Below that it is `time / (60 * targetDuration)`. |
| TimerDisplay.Fraction | components/SessionTimer.tsx:66 | `(time / 60) / targetDuration` times `60 * targetDuration` is `time`. The fraction is below 1 iff `time < 60 * targetDuration`. |
| TimerDisplay.ProgressWidth | components/SessionTimer.tsx:78 | The bar width is between 0% and 100%, and it is 100% exactly when the target is reached. |
| TimerDisplay.PercentComplete | components/SessionTimer.tsx:81 | The percent figure is the floor of `time * 100 / (60 * targetDuration)`, stated by the two bounds around it. |
| TimerDisplay.PercentReachesHundred | components/SessionTimer.tsx:81 | The percent figure is at least 100 iff the target is reached. |
| TimerDisplay.PercentUnclamped | components/SessionTimer.tsx:81 | The percent figure is not clamped: twice the target shows 200. |
| TimerDisplay.PercentIsFloorOfWidth | components/SessionTimer.tsx:78-81 | Below the target, the percent text is the floor of the bar width. |
| ShareTemplate.PrefixEach | src/utils/shareTemplate.ts:12-14 | The `map` with a prefix keeps the length and the order, and puts the prefix before each item. |
| ShareTemplate.JoinLines | src/utils/shareTemplate.ts:12-14 | `join('\n')`: the joined text begins with the first line. `SplitJoin` shows that splitting at `\n` undoes it, and `JoinAppend` shows how it composes. |
| ShareTemplate.SplitJoin | src/utils/shareTemplate.ts:12-14 | Splitting at `\n` undoes `join('\n')` for a non-empty list of lines that hold no `\n`. |
| ShareTemplate.JoinAppend | src/utils/shareTemplate.ts:12-14 | Joining two non-empty lists of lines puts exactly one `\n` between their joins. |
| ShareTemplate.TopicsList | src/utils/shareTemplate.ts:12 | The topic list is empty iff there are no topics. |
| ShareTemplate.AchievementsList | src/utils/shareTemplate.ts:13-15 | The achievements block is empty iff there are no achievements. Otherwise it opens with a blank line and `Achievements:`. |
| ShareTemplate.HeaderLine | src/utils/shareTemplate.ts:18 | The first line holds the user name right after the rocket and space, and the period right before the closing parenthesis, both exactly as given. It holds no `\n` unless one of them does. |
| ShareTemplate.Header | src/utils/shareTemplate.ts:18-19 | Everything before the topic list: it begins with the header line and ends with a line break. `HeaderAsLines` states it as the lines header, blank and `Today I focused on:`. |
| ShareTemplate.HeaderAsLines | src/utils/shareTemplate.ts:18-19 | The header is the header line, an empty line and the focus line, joined by `\n`, with a `\n` after them. |
| ShareTemplate.AchievementsAsLines | src/utils/shareTemplate.ts:13-15 | A non-empty achievements block is a line break followed by the lines blank, `Achievements:` and one trophy line per achievement, in order, joined by `\n`. |
| ShareTemplate.GenerateLearningPost | src/utils/shareTemplate.ts:1-23 | The post begins with the header for the user and the period (the period defaults to `today`) and the focus line. It ends with a blank line and the hashtags. |
| ShareTemplate.PostDefaults | src/utils/shareTemplate.ts:4-5 | An absent period gives the same post as `today`. Absent achievements give the same post as an empty list. |
| ShareTemplate.PostIsJoinedLines | src/utils/shareTemplate.ts:17-22 | The post is exactly its lines joined by `\n`. The lines are the header, a blank, the focus line, one bullet line per topic in order (one empty line when there are no topics), then, only when there are achievements, a blank, the title and one trophy line each in order, and last a blank and the hashtags. |
| ShareTemplate.PostSplitsIntoLines | src/utils/shareTemplate.ts:12-22 | When no field holds a `\n`, splitting the post at `\n` recovers exactly those lines, so each topic and each achievement can be read back from its own line. |
| ShareTemplate.PostLinesAreSingle | src/utils/shareTemplate.ts:12-22 | When no field holds a `\n`, no line of the post does either. |

## Left out

- Rendering is not modelled: the styles, icons and layout, and the choice of which buttons are shown (Start only while inactive, Pause and Stop only while active). The handlers are modelled without that guard, as the code defines them.
- Scheduling by `setInterval` and `clearInterval` and the effect's re-installation on every state change are not modelled as such. Each interval callback is one `Tick(now)` action, taken only while the timer is running. The instants of the ticks are a parameter, and the auto-stop lemmas state what holds for every schedule in which the k-th tick comes no earlier than `1000 * k` ms after the last user action.
- React's asynchronous, batched state updates and the closures over the state of one render are not modelled. Each handler is applied atomically to the current state.
- `Date.now()` is a parameter, and the callback is a reported value. What the callback does is outside the component.
- TimerDisplay.Progress: does not model a `targetDuration` of 0 or less, which in JavaScript divides by zero and gives `Infinity` or `NaN`. Its functions require `targetDuration > 0`.
- TimerDisplay.Progress: floating-point rounding of `time / 60 / targetDuration` is not modelled; the fraction is exact.
- TimerDisplay.PercentComplete: floating-point rounding of the same expression is not modelled. When the float product lands just below a whole number, JavaScript prints one less than the exact floor that the model gives. For example, with a target of 20 minutes, 84 seconds shows 6% in JavaScript and 7% in the model; 168 seconds shows 13% and 14%.
- TimerDisplay.FormatTime: takes only non-negative whole seconds. That is every value `time` can hold (`Inv`), so negative and fractional inputs are not modelled.
- ShareTemplate.GenerateLearningPost: strings are sequences of Unicode characters. JavaScript's UTF-16 code units (the emoji are two each) are not modelled. This changes lengths, not content.
- ShareTemplate.PostSplitsIntoLines: a topic, achievement, name or period that holds a `\n` of its own breaks the line structure. The lemma requires that none does, while `PostIsJoinedLines` holds for all inputs.
