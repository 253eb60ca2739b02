/**
 * The answers of the dialogs a background change may open. The dialogs themselves
 * are outside the model; each operation that would show one takes its answer as input.
 */
module Selection {
  import opened Pages

  /** The result of loading the chosen image file. */
  datatype LoadOutcome = LoadOk(data: ImageData) | LoadError(message: string)

  /** The answer of the image file chooser: cancelled, or a file with the "attach" choice and its load result. */
  datatype FileChoice = FileCancelled | FileChosen(attach: bool, load: LoadOutcome)

  /**
   * The answer of the images dialog: the document image picked there (`NoImage` if none),
   * whether the user asked for the file chooser, and what the file chooser then answers.
   */
  datatype ImageChoice = ImageChoice(selected: BackgroundImage, showFileChooser: bool, file: FileChoice) {
    /** The image path gives up: nothing picked, the file chooser requested, and it cancelled or failed to load. */
    predicate Aborts() {
      selected.IsEmpty() && showFileChooser && (file.FileCancelled? || file.load.LoadError?)
    }
  }

  /**
   * What the user answers when a background change needs a choice: the page picked in the
   * PDF pages dialog (a cancelled dialog reports an index past the last PDF page) and the
   * answers of the image dialogs.
   */
  datatype UserChoice = UserChoice(pdfPage: nat, image: ImageChoice)
}
