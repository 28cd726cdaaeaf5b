/**
 * `initialize_camera`: choose the video source at start-up, preferring the
 * ESP32-CAM stream when the configuration asks for it and falling back once
 * to the local webcam. Whether `connect()` succeeds and whether the webcam
 * opens are inputs.
 */
module CameraManager {
  import opened Wrappers
  import opened Config

  /** The local capture device the source opens. */
  const WebcamIndex: int := 0

  /** The status `exit` is called with when no camera is available. */
  const ExitStatus: int := 1

  /** What the manager tried, in order. */
  datatype Attempt = ConnectEsp32(url: string) | OpenWebcam(index: int)

  /** The camera object handed back to the caller, or the process exit. */
  datatype Outcome = Esp32Camera(url: string) | Webcam(index: int) | Exit(status: int)

  datatype Setup = Setup(outcome: Outcome, attempts: seq<Attempt>)

  /** The webcam branch: open device 0, exit with status 1 if it is not opened. */
  function OpenWebcamOrExit(tried: seq<Attempt>, webcamOpened: bool): (s: Setup)
    ensures s.attempts == tried + [OpenWebcam(WebcamIndex)]
    ensures s.outcome == (if webcamOpened then Webcam(WebcamIndex) else Exit(ExitStatus))
  {
    var attempts := tried + [OpenWebcam(WebcamIndex)];
    if webcamOpened then Setup(Webcam(WebcamIndex), attempts)
    else Setup(Exit(ExitStatus), attempts)
  }

  function InitializeCamera(settings: Settings, connectSucceeds: bool, webcamOpened: bool): (s: Setup)
    // ESP32 mode: the stream for the configured URL is created and connected first.
    ensures settings.useEsp32 <==> (|s.attempts| > 0 && s.attempts[0] == ConnectEsp32(settings.esp32Url))
    // A successful connect is returned as it is, and no webcam is opened.
    ensures settings.useEsp32 && connectSucceeds ==>
              s.outcome == Esp32Camera(settings.esp32Url) && s.attempts == [ConnectEsp32(settings.esp32Url)]
    // Otherwise webcam 0 is tried exactly once, last; before it there is at
    // most the one failed connect, never a second one.
    ensures !(settings.useEsp32 && connectSucceeds) ==>
              s.attempts == (if settings.useEsp32 then [ConnectEsp32(settings.esp32Url)] else [])
                            + [OpenWebcam(WebcamIndex)]
              && (s.outcome == Webcam(WebcamIndex) <==> webcamOpened)
              && (s.outcome == Exit(ExitStatus) <==> !webcamOpened)
    // Every path ends in a camera or in `exit(1)`: the function never returns "no camera".
    ensures s.outcome.Exit? ==> s.outcome.status == ExitStatus && !webcamOpened
    ensures s.outcome.Esp32Camera? ==> settings.useEsp32 && connectSucceeds
  {
    if settings.useEsp32 then
      var tried := [ConnectEsp32(settings.esp32Url)];
      if connectSucceeds then Setup(Esp32Camera(settings.esp32Url), tried)
      else OpenWebcamOrExit(tried, webcamOpened)
    else
      OpenWebcamOrExit([], webcamOpened)
  }

  /**
   * With the environment left empty the ESP32-CAM at the placeholder URL is
   * tried first; when it cannot be reached but the webcam opens, the webcam
   * is used.
   */
  lemma DefaultsFallBackToWebcam()
    ensures InitializeCamera(Load(None, None), false, true)
            == Setup(Webcam(0), [ConnectEsp32("YOUR_URL"), OpenWebcam(0)])
  {
    UseEsp32Examples();
  }
}
