/** One run of the coaching page once a video has been received: choose
    the model, upload and wait for the video, and only then ask for the
    analysis. The model listing and the analysis service are inputs. */
module CoachApp {
  import opened ModelSelection
  import opened Readiness

  /** How a run ends: with the report the analysis service produced for the
      chosen model and the ready file, or stopped with a terminal outcome. */
  datatype RunResult =
    | Report(model: string, file: FileHandle, text: string)
    | Stopped(outcome: Outcome)

  /** Model selection, then the upload guard and the wait, then generation.
      `generate` stands for the analysis call on the chosen model. */
  method AnalyzeVideo(models: seq<ModelInfo>, upload: Upload, statusAt: nat -> string,
                      extra: nat -> nat, generate: (string, FileHandle) -> string)
    returns (result: RunResult)
    ensures result.Report? <==> Ingest(upload, statusAt, extra).Ready?
    ensures result.Report? ==>
              && result.file.state == ActiveState
              && upload.Uploaded? && result.file.name == upload.handle.name
              && result.model == SelectedName(models)
              && result.text == generate(result.model, result.file)
    ensures result.Stopped? ==> result.outcome == Ingest(upload, statusAt, extra)
    ensures result.Stopped? && upload.UploadError? ==> result.outcome.Queries() == 0
  {
    var modelName := SelectModel(models);
    var outcome := AwaitReady(upload, statusAt, extra);
    if !outcome.Ready? {
      return Stopped(outcome);
    }
    var videoFile := outcome.file;
    var text := generate(modelName, videoFile);
    result := Report(modelName, videoFile, text);
  }
}
