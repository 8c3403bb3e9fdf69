/**
  The decision taken by `handlePopup` (index.js:60-86): after waiting for the dialog
  header, the adult-content checkbox and then the confirm button are clicked only when
  the header text is exactly "Внимание" ("Attention"). Waiting for the header may
  time out and any click may throw; every such error is caught and logged, so the
  procedure never fails its caller.
*/
module Popup {

  import opened Optional

  /** The header text that triggers the confirmation (index.js:70). */
  const WarningTitle: string := "Внимание"

  /**
    What the browser reports about the dialog header: the 15-second wait timed out
    (index.js:63), or the header's `textContent`, which is `null` when the element is
    gone by the time it is queried (index.js:65-68).
  */
  datatype HeaderProbe = TimedOut | Header(text: Option<string>)

  /** The two controls of the dialog, clicked in this order (index.js:73, 76). */
  datatype Control = AdultCheckbox | ConfirmButton

  /**
    The clicks `handlePopup` issues. `checkboxClickOk` says whether the click on the
    checkbox returned normally; when it throws, the catch block skips the button.
  */
  function PopupClicks(probe: HeaderProbe, checkboxClickOk: bool): (clicks: seq<Control>)
    ensures clicks != [] <==> probe == Header(Some(WarningTitle))
    ensures clicks != [] ==> clicks[0] == AdultCheckbox
    ensures ConfirmButton in clicks <==> probe == Header(Some(WarningTitle)) && checkboxClickOk
    ensures ConfirmButton in clicks ==> clicks == [AdultCheckbox, ConfirmButton]
    ensures probe == Header(Some(WarningTitle)) && !checkboxClickOk ==> clicks == [AdultCheckbox]
  {
    match probe
    case Header(Some(text)) =>
      if text == WarningTitle then
        if checkboxClickOk then [AdultCheckbox, ConfirmButton] else [AdultCheckbox]
      else []
    case _ => []
  }

}
